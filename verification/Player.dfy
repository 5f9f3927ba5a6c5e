/**
 The client's inventory: items a player carries, items in the seven equipment slots, the disk space and
 item counters, and the stats that equipped items change.
 */
module Player {
  const EQUIP_SLOT_MAX: nat := 7
  const W16: nat := 0x1_0000

  /** What the inventory needs to know of an item. Items are compared as pointers. */
  class CItemInstance {
    const equipType: nat
    const scriptLevel: nat
    const codeLevel: nat
    const hackLevel: nat
    const modHP: int
    const modCPU: int
    const modMemory: int
    const m_diskUsage: nat

    constructor (equipType: nat, scriptLevel: nat, codeLevel: nat, hackLevel: nat,
        modHP: int, modCPU: int, modMemory: int, diskUsage: nat)
      ensures this.equipType == equipType && m_diskUsage == diskUsage
      ensures this.scriptLevel == scriptLevel && this.codeLevel == codeLevel && this.hackLevel == hackLevel
      ensures this.modHP == modHP && this.modCPU == modCPU && this.modMemory == modMemory
    {
      this.equipType, this.scriptLevel, this.codeLevel, this.hackLevel := equipType, scriptLevel, codeLevel, hackLevel;
      this.modHP, this.modCPU, this.modMemory, this.m_diskUsage := modHP, modCPU, modMemory, diskUsage;
    }

    /** `GetDiskUsage` returns eight bits. */
    function GetDiskUsage(): (u: nat)
      ensures u < 256 && (m_diskUsage - u) % 256 == 0
    {
      m_diskUsage % 256
    }
  }

  /* ------------------------------------- sums ------------------------------------- */

  function DiskSum(items: seq<CItemInstance>): nat {
    if items == [] then 0 else items[0].GetDiskUsage() + DiskSum(items[1..])
  }

  datatype Stat = HP | CPU | Memory

  function Modifier(item: CItemInstance, s: Stat): int {
    match s
    case HP => item.modHP
    case CPU => item.modCPU
    case Memory => item.modMemory
  }

  /** What the equipped items add to a stat. */
  function ModifierSum(slots: seq<CItemInstance?>, s: Stat): int {
    if slots == [] then 0
    else (if slots[0] == null then 0 else Modifier(slots[0], s)) + ModifierSum(slots[1..], s)
  }

  function Equipped(slots: seq<CItemInstance?>): multiset<CItemInstance> {
    if slots == [] then multiset{}
    else (if slots[0] == null then multiset{} else multiset{slots[0]}) + Equipped(slots[1..])
  }

  function Removed(items: seq<CItemInstance>, k: int): seq<CItemInstance>
    requires 0 <= k < |items|
  {
    items[..k] + items[k + 1..]
  }

  lemma {:induction false} DiskSumRemoved(items: seq<CItemInstance>, k: int)
    requires 0 <= k < |items|
    ensures DiskSum(items) == DiskSum(Removed(items, k)) + items[k].GetDiskUsage()
  {
    if k > 0 {
      DiskSumRemoved(items[1..], k - 1);
      assert Removed(items, k) == [items[0]] + Removed(items[1..], k - 1);
    } else {
      assert Removed(items, 0) == items[1..];
    }
  }

  /** The list without the first place of an item. */
  function Without(items: seq<CItemInstance>, item: CItemInstance?): seq<CItemInstance> {
    if items == [] then [] else if items[0] == item then items[1..] else [items[0]] + Without(items[1..], item)
  }

  lemma {:induction false} WithoutIs(items: seq<CItemInstance>, k: int)
    requires 0 <= k < |items| && items[k] !in items[..k]
    ensures Without(items, items[k]) == Removed(items, k)
  {
    if k > 0 {
      assert items[0] in items[..k];
      assert items[1..][..k - 1] == items[..k][1..];
      WithoutIs(items[1..], k - 1);
    }
  }

  lemma {:induction false} FirstPlace(items: seq<CItemInstance>, item: CItemInstance)
    requires item in items
    ensures exists k :: 0 <= k < |items| && items[k] == item && item !in items[..k]
  {
    if items[0] == item {
      assert item !in items[..0];
    } else {
      FirstPlace(items[1..], item);
      var k :| 0 <= k < |items[1..]| && items[1..][k] == item && item !in items[1..][..k];
      assert items[..k + 1] == [items[0]] + items[1..][..k];
      assert items[k + 1] == item;
    }
  }

  lemma {:induction false} WithoutNothing(items: seq<CItemInstance>, item: CItemInstance?)
    requires item !in items
    ensures Without(items, item) == items
  {
    if items != [] {
      WithoutNothing(items[1..], item);
    }
  }

  lemma {:induction false} WithoutOne(items: seq<CItemInstance>, item: CItemInstance)
    requires item in items
    ensures multiset(items) == multiset(Without(items, item)) + multiset{item}
  {
    assert items == [items[0]] + items[1..];
    if items[0] != item {
      WithoutOne(items[1..], item);
    }
  }

  lemma DiskSumFirst(item: CItemInstance?, items: seq<CItemInstance>)
    ensures item != null ==> DiskSum([item] + items) == item.GetDiskUsage() + DiskSum(items)
  {
    if item != null {
      assert ([item] + items)[1..] == items;
    }
  }

  lemma MultisetRemoved(items: seq<CItemInstance>, k: int)
    requires 0 <= k < |items|
    ensures multiset(items) == multiset(Removed(items, k)) + multiset{items[k]}
  {
    assert items == items[..k] + [items[k]] + items[k + 1..];
  }

  /** Filling an empty slot. */
  lemma {:induction false} SlotFilled(slots: seq<CItemInstance?>, k: int, item: CItemInstance, s: Stat)
    requires 0 <= k < |slots| && slots[k] == null
    ensures ModifierSum(slots[k := item], s) == ModifierSum(slots, s) + Modifier(item, s)
    ensures Equipped(slots[k := item]) == Equipped(slots) + multiset{item}
  {
    var filled := slots[k := item];
    if k > 0 {
      SlotFilled(slots[1..], k - 1, item, s);
      assert filled[1..] == slots[1..][k - 1 := item];
    } else {
      assert filled[1..] == slots[1..];
    }
  }

  lemma Emptied(slots: seq<CItemInstance?>, k: int, s: Stat)
    requires 0 <= k < |slots| && slots[k] != null
    ensures ModifierSum(slots, s) == ModifierSum(slots[k := null], s) + Modifier(slots[k], s)
    ensures Equipped(slots) == Equipped(slots[k := null]) + multiset{slots[k]}
  {
    SlotFilled(slots[k := null], k, slots[k], s);
    assert slots[k := null][k := slots[k]] == slots;
  }

  lemma {:induction false} InSlot(slots: seq<CItemInstance?>, k: int)
    requires 0 <= k < |slots| && slots[k] != null
    ensures slots[k] in Equipped(slots)
  {
    if k > 0 {
      InSlot(slots[1..], k - 1);
    }
  }

  /** Sixteen-bit addition and subtraction undo each other. */
  lemma Wrap(base: int, sum: int, x: int)
    ensures ((base + sum) % W16 + x) % W16 == (base + (sum + x)) % W16
    ensures ((base + sum) % W16 - x) % W16 == (base + (sum - x)) % W16
  {
  }

  function Signed(sign: int, x: int): int { if sign < 0 then -x else x }

  lemma Added(
    base: int, before: seq<CItemInstance?>, after: seq<CItemInstance?>, item: CItemInstance, sign: int, s: Stat)
    requires ModifierSum(after, s) == ModifierSum(before, s) + Signed(sign, Modifier(item, s))
    ensures ((base + ModifierSum(before, s)) % W16 + Signed(sign, Modifier(item, s))) % W16 ==
      (base + ModifierSum(after, s)) % W16
  {
    hide ModifierSum, Modifier, Signed;
    Wrap(base, ModifierSum(before, s), Signed(sign, Modifier(item, s)));
  }

  lemma Modifiers(item: CItemInstance)
    ensures Modifier(item, HP) == item.modHP && Modifier(item, CPU) == item.modCPU
    ensures Modifier(item, Memory) == item.modMemory
  {
  }

  /** No item is carried twice, equipped twice, or both carried and equipped. */
  ghost predicate OnePlace(all: multiset<CItemInstance>) {
    forall i :: i in all ==> all[i] == 1
  }

  lemma FewerInPlace(all: multiset<CItemInstance>, item: CItemInstance)
    ensures OnePlace(all + multiset{item}) ==> OnePlace(all)
  {
    if OnePlace(all + multiset{item}) {
      forall i | i in all
        ensures all[i] == 1
      {
        assert (all + multiset{item})[i] == 1;
      }
    }
  }

  lemma MoreInPlace(all: multiset<CItemInstance>, item: CItemInstance?)
    requires OnePlace(all)
    ensures item != null ==> (OnePlace(all + multiset{item}) <==> item !in all)
  {
    if item != null {
      var more := all + multiset{item};
      assert item in more && more[item] == all[item] + 1;
    }
  }

  lemma PlacesAfter(all: multiset<CItemInstance>, item: CItemInstance?)
    ensures OnePlace(all) && item != null ==> (OnePlace(all + multiset{item}) <==> item !in all)
  {
    hide OnePlace;
    if OnePlace(all) {
      MoreInPlace(all, item);
    }
  }

  lemma CarriedMore(before: seq<CItemInstance>, after: seq<CItemInstance>, item: CItemInstance)
    ensures after == [item] + before ==> multiset(after) == multiset(before) + multiset{item}
  {
  }

  /** Every equipped item is of the type of its slot. */
  ghost predicate InTheirSlots(slots: seq<CItemInstance?>) {
    forall s :: 0 <= s < |slots| && slots[s] != null ==> slots[s].equipType == s
  }

  /** Subtraction that stops at zero, the strange situation of `RemoveItemFromInventory`. */
  function Less(a: nat, b: nat): nat { if b > a then 0 else a - b }

  /* ------------------------------------ the player ------------------------------------ */

  /** One of the four operations, with the pointer or slot it is called with. */
  datatype Op =
    | Add(item: CItemInstance?)
    | Remove(item: CItemInstance?)
    | Equip(item: CItemInstance?, slot: nat)
    | Unequip(slot: nat)

  /** What the operations change: the list, the slots and the current stats. */
  datatype Inventory = Inventory(items: seq<CItemInstance>, slots: seq<CItemInstance?>, hp: nat, cpu: nat, memory: nat)

  /** What they only read. */
  datatype Limits = Limits(
    maxCarryDisk: nat, maxCarryItems: nat, scriptLevel: nat, codeLevel: nat, hackLevel: nat,
    baseHP: int, baseCPU: int, baseMemory: int)

  function AtMost(a: nat, b: nat): nat { if a > b then b else a }

  /** A stat above its maximum `most` falls to it, any other stays. */
  predicate Clamped(was: nat, now: nat, most: nat) {
    (was <= most ==> now == was) && (was > most ==> now == most)
  }

  function MaxStat(base: int, slots: seq<CItemInstance?>, s: Stat): nat {
    (base + ModifierSum(slots, s)) % W16
  }

  /** Other equipment: no stat is above its maximum. */
  function Reequipped(lim: Limits, inv: Inventory, items: seq<CItemInstance>, slots: seq<CItemInstance?>): Inventory {
    Inventory(
      items, slots,
      AtMost(inv.hp, MaxStat(lim.baseHP, slots, HP)),
      AtMost(inv.cpu, MaxStat(lim.baseCPU, slots, CPU)),
      AtMost(inv.memory, MaxStat(lim.baseMemory, slots, Memory)))
  }

  predicate HasSpace(lim: Limits, items: seq<CItemInstance>, item: CItemInstance) {
    DiskSum(items) + item.GetDiskUsage() <= lim.maxCarryDisk && |items| + 1 <= lim.maxCarryItems
  }

  /** When an operation succeeds. */
  predicate Succeeds(lim: Limits, inv: Inventory, o: Op) {
    match o
    case Add(item) => item != null && HasSpace(lim, inv.items, item)
    case Remove(item) => item in inv.items
    case Equip(item, slot) =>
      && slot < |inv.slots| && item != null && inv.slots[slot] == null && item.equipType == slot && item in inv.items
      && item.scriptLevel <= lim.scriptLevel && item.codeLevel <= lim.codeLevel && item.hackLevel <= lim.hackLevel
    case Unequip(slot) => slot < |inv.slots| && inv.slots[slot] != null && HasSpace(lim, inv.items, inv.slots[slot])
  }

  /** An item that is put in the list leaves its old place there, but not its slot. */
  function Step(lim: Limits, inv: Inventory, o: Op): Inventory {
    if !Succeeds(lim, inv, o) then inv
    else
      match o
      case Add(item) => inv.(items := [item] + Without(inv.items, item))
      case Remove(item) => inv.(items := Without(inv.items, item))
      case Equip(item, slot) => Reequipped(lim, inv, Without(inv.items, item), inv.slots[slot := item])
      case Unequip(slot) =>
        Reequipped(
          lim, inv, [inv.slots[slot]] + Without(inv.items, inv.slots[slot]), inv.slots[slot := null])
  }

  function Steps(lim: Limits, inv: Inventory, ops: seq<Op>): Inventory {
    if ops == [] then inv else Step(lim, Steps(lim, inv, ops[..|ops| - 1]), ops[|ops| - 1])
  }

  /** The items in the list and in the slots. */
  ghost function Items(inv: Inventory): multiset<CItemInstance> {
    multiset(inv.items) + Equipped(inv.slots)
  }

  /** The operation puts an item into the list that is in the list or in a slot already. */
  ghost predicate Doubles(lim: Limits, inv: Inventory, o: Op) {
    o.Add? && o.item != null && Succeeds(lim, inv, o) && o.item in Items(inv)
  }

  /** The item that an operation brought to the player, if it did. */
  function Brought(o: Op, done: bool): multiset<CItemInstance> {
    if o.Add? && o.item != null && done then multiset{o.item} else multiset{}
  }

  /** The item that it took away. */
  function Taken(o: Op, done: bool): multiset<CItemInstance> {
    if o.Remove? && o.item != null && done then multiset{o.item} else multiset{}
  }

  ghost function AddedBy(ops: seq<Op>, results: seq<bool>): multiset<CItemInstance>
    requires |ops| == |results|
  {
    if ops == [] then multiset{}
    else
      var n := |ops| - 1;
      AddedBy(ops[..n], results[..n]) + Brought(ops[n], results[n])
  }

  ghost function RemovedBy(ops: seq<Op>, results: seq<bool>): multiset<CItemInstance>
    requires |ops| == |results|
  {
    if ops == [] then multiset{}
    else
      var n := |ops| - 1;
      RemovedBy(ops[..n], results[..n]) + Taken(ops[n], results[n])
  }

  lemma AddConserves(lim: Limits, inv: Inventory, item: CItemInstance)
    requires OnePlace(Items(inv)) && Succeeds(lim, inv, Add(item)) && item !in Items(inv)
    ensures Items(Step(lim, inv, Add(item))) == Items(inv) + multiset{item}
    ensures OnePlace(Items(inv) + multiset{item})
  {
    hide Equipped, OnePlace, HasSpace;
    WithoutNothing(inv.items, item);
    MoreInPlace(Items(inv), item);
    assert multiset([item] + inv.items) == multiset{item} + multiset(inv.items);
  }

  lemma RemoveConserves(lim: Limits, inv: Inventory, item: CItemInstance)
    requires OnePlace(Items(inv)) && item in inv.items
    ensures Items(inv) == Items(Step(lim, inv, Remove(item))) + multiset{item}
    ensures OnePlace(Items(Step(lim, inv, Remove(item))))
  {
    hide Equipped, OnePlace;
    WithoutOne(inv.items, item);
    assert Items(inv) == Items(Step(lim, inv, Remove(item))) + multiset{item};
    FewerInPlace(Items(Step(lim, inv, Remove(item))), item);
  }

  lemma EquipConserves(lim: Limits, inv: Inventory, item: CItemInstance, slot: nat)
    requires Succeeds(lim, inv, Equip(item, slot))
    ensures Items(Step(lim, inv, Equip(item, slot))) == Items(inv)
  {
    hide Equipped, ModifierSum, Modifier, AtMost, MaxStat;
    WithoutOne(inv.items, item);
    EquippedMore(inv.slots, slot, item);
  }

  lemma UnequipConserves(lim: Limits, inv: Inventory, slot: nat)
    requires OnePlace(Items(inv)) && Succeeds(lim, inv, Unequip(slot))
    ensures Items(Step(lim, inv, Unequip(slot))) == Items(inv)
  {
    hide Equipped, ModifierSum, Modifier, AtMost, MaxStat, OnePlace, HasSpace;
    NotBoth(inv.items, inv.slots, slot);
    WithoutNothing(inv.items, inv.slots[slot]);
    EquippedLess(inv.slots, slot);
    assert multiset([inv.slots[slot]] + inv.items) == multiset{inv.slots[slot]} + multiset(inv.items);
  }

  /** One operation that does not double an item brings, takes away or moves one item at most. */
  lemma StepConserves(lim: Limits, inv: Inventory, o: Op)
    requires OnePlace(Items(inv)) && !Doubles(lim, inv, o)
    ensures OnePlace(Items(Step(lim, inv, o)))
    ensures Items(Step(lim, inv, o)) + Taken(o, Succeeds(lim, inv, o)) == Items(inv) + Brought(o, Succeeds(lim, inv, o))
  {
    hide OnePlace, Items, Step;
    if !Succeeds(lim, inv, o) {
      FailedStep(lim, inv, o);
    } else {
      match o {
        case Add(item) =>
          AddConserves(lim, inv, item);
        case Remove(item) =>
          RemoveConserves(lim, inv, item);
        case Equip(item, slot) =>
          EquipConserves(lim, inv, item, slot);
        case Unequip(slot) =>
          UnequipConserves(lim, inv, slot);
      }
    }
  }

  lemma FailedStep(lim: Limits, inv: Inventory, o: Op)
    requires !Succeeds(lim, inv, o)
    ensures Step(lim, inv, o) == inv
  {
  }

  /** Operation `i` finds what the operations before it leave, and doubles no item. */
  ghost predicate Harmless(lim: Limits, inv: Inventory, ops: seq<Op>, i: int)
    requires 0 <= i < |ops|
  {
    !Doubles(lim, Steps(lim, inv, ops[..i]), ops[i])
  }

  /** The answers of the first `|results|` operations are those of the step by step account. */
  ghost predicate Answers(lim: Limits, inv: Inventory, ops: seq<Op>, results: seq<bool>)
    requires |results| <= |ops|
  {
    forall i :: 0 <= i < |results| ==> (results[i] <==> Succeeds(lim, Steps(lim, inv, ops[..i]), ops[i]))
  }

  /** The first `|results|` operations went as the account says, and none doubled an item. */
  ghost predicate Went(lim: Limits, inv: Inventory, ops: seq<Op>, results: seq<bool>) {
    && |results| <= |ops| && Answers(lim, inv, ops, results)
    && forall i :: 0 <= i < |results| ==> Harmless(lim, inv, ops, i)
  }

  lemma NothingYet(lim: Limits, inv: Inventory, ops: seq<Op>)
    ensures Went(lim, inv, ops, []) && Steps(lim, inv, ops[..0]) == inv
  {
  }

  lemma WentOn(lim: Limits, inv: Inventory, ops: seq<Op>, results: seq<bool>, r: bool)
    requires Went(lim, inv, ops, results) && |results| < |ops| && Harmless(lim, inv, ops, |results|)
    requires r <==> Succeeds(lim, Steps(lim, inv, ops[..|results|]), ops[|results|])
    ensures Went(lim, inv, ops, results + [r])
  {
    hide Succeeds, Steps, Harmless;
  }

  lemma StepsOn(lim: Limits, inv: Inventory, ops: seq<Op>, n: nat)
    requires n < |ops|
    ensures Steps(lim, inv, ops[..n + 1]) == Step(lim, Steps(lim, inv, ops[..n]), ops[n])
  {
    hide Step;
    assert ops[..n + 1][..n] == ops[..n];
  }

  /** Over a run nothing is lost or doubled: what was brought less what was taken is there. */
  lemma {:induction false} RunConserves(lim: Limits, inv: Inventory, ops: seq<Op>, results: seq<bool>)
    requires OnePlace(Items(inv)) && |results| == |ops| && Answers(lim, inv, ops, results)
    requires forall i :: 0 <= i < |ops| ==> Harmless(lim, inv, ops, i)
    ensures OnePlace(Items(Steps(lim, inv, ops)))
    ensures Items(Steps(lim, inv, ops)) + RemovedBy(ops, results) == Items(inv) + AddedBy(ops, results)
    decreases |ops|
  {
    hide OnePlace, Items, Step, Succeeds, Doubles, Taken, Brought;
    if ops != [] {
      var n := |ops| - 1;
      var before, was := ops[..n], results[..n];
      forall i | 0 <= i < n
        ensures Harmless(lim, inv, before, i) && (was[i] <==> Succeeds(lim, Steps(lim, inv, before[..i]), before[i]))
      {
        assert before[..i] == ops[..i] && Harmless(lim, inv, ops, i);
      }
      RunConserves(lim, inv, before, was);
      assert Harmless(lim, inv, ops, n);
      var mid := Steps(lim, inv, before);
      StepConserves(lim, mid, ops[n]);
      Balance(Items(inv), Items(mid), Items(Steps(lim, inv, ops)), AddedBy(before, was), RemovedBy(before, was),
        Brought(ops[n], results[n]), Taken(ops[n], results[n]));
    }
  }

  lemma Balance<T>(a: multiset<T>, b: multiset<T>, c: multiset<T>,
      added: multiset<T>, removed: multiset<T>, more: multiset<T>, less: multiset<T>)
    requires b + removed == a + added && c + less == b + more
    ensures c + (removed + less) == a + (added + more)
  {
    assert c + (removed + less) == (c + less) + removed;
    assert (b + more) + removed == (b + removed) + more;
  }

  class CPlayer {
    const slots: array<CItemInstance?>
    var items: seq<CItemInstance>

    var maxCarryDisk: nat
    var maxCarryItems: nat
    var curDiskSpace: nat
    var curDiskItems: nat

    var hp: nat
    var cpu: nat
    var memory: nat
    var maxHP: nat
    var maxCPU: nat
    var maxMemory: nat

    var scriptLevel: nat
    var codeLevel: nat
    var hackLevel: nat

    // The stats without any equipment.
    ghost var baseHP: int
    ghost var baseCPU: int
    ghost var baseMemory: int

    constructor (
      maxCarryDisk: nat, maxCarryItems: nat, hp: nat, cpu: nat, memory: nat, script: nat, code: nat, hack: nat)
      requires maxCarryDisk < W16 && maxCarryItems < 256 && hp < W16 && cpu < W16 && memory < W16
      ensures Valid() && fresh(slots) && items == [] && Equipped(slots[..]) == multiset{}
      ensures Lim() == Limits(maxCarryDisk, maxCarryItems, script, code, hack, hp, cpu, memory)
      ensures this.hp == hp && this.cpu == cpu && this.memory == memory
    {
      slots := new CItemInstance?[EQUIP_SLOT_MAX](_ => null);
      items := [];
      this.maxCarryDisk, this.maxCarryItems, curDiskSpace, curDiskItems := maxCarryDisk, maxCarryItems, 0, 0;
      this.hp, this.cpu, this.memory, maxHP, maxCPU, maxMemory := hp, cpu, memory, hp, cpu, memory;
      scriptLevel, codeLevel, hackLevel := script, code, hack;
      baseHP, baseCPU, baseMemory := hp, cpu, memory;
      new;
      NothingEquipped(slots[..]);
    }

    /** The counters agree with the list and stay within the limits. */
    ghost predicate Tallied()
      reads `items, `maxCarryDisk, `maxCarryItems, `curDiskSpace, `curDiskItems
    {
      curDiskItems == |items| <= maxCarryItems < 256 && curDiskSpace == DiskSum(items) <= maxCarryDisk < W16
    }

    /** Maximum stats are base plus equipment in 16 bits. */
    ghost predicate MaxOk(equipment: seq<CItemInstance?>)
      reads `maxHP, `maxCPU, `maxMemory, `baseHP, `baseCPU, `baseMemory
    {
      && maxHP == (baseHP + ModifierSum(equipment, HP)) % W16
      && maxCPU == (baseCPU + ModifierSum(equipment, CPU)) % W16
      && maxMemory == (baseMemory + ModifierSum(equipment, Memory)) % W16
    }

    ghost predicate Valid()
      reads this, slots
    {
      && slots.Length == EQUIP_SLOT_MAX && Tallied() && OnePlace(All())
      && MaxOk(slots[..]) && hp <= maxHP && cpu <= maxCPU && memory <= maxMemory
      && InTheirSlots(slots[..])
    }

    /** Every item on the player, carried or equipped. */
    ghost function All(): multiset<CItemInstance>
      reads `items, slots
    {
      multiset(items) + Equipped(slots[..])
    }

    ghost function Inv(): Inventory
      reads this, slots
    {
      Inventory(items, slots[..], hp, cpu, memory)
    }

    ghost function Lim(): Limits
      reads this
    {
      Limits(maxCarryDisk, maxCarryItems, scriptLevel, codeLevel, hackLevel, baseHP, baseCPU, baseMemory)
    }

    /** What the value of a player in a valid state says. */
    lemma StateOf()
      requires Valid()
      ensures slots.Length == EQUIP_SLOT_MAX && Tallied() && OnePlace(Items(Inv())) && Items(Inv()) == All()
      ensures curDiskItems == |items| && curDiskSpace == DiskSum(items)
    {
    }

    lemma MaximaOf()
      requires Valid()
      ensures maxHP == MaxStat(baseHP, slots[..], HP) && maxCPU == MaxStat(baseCPU, slots[..], CPU)
      ensures maxMemory == MaxStat(baseMemory, slots[..], Memory)
    {
    }

    predicate Fits(item: CItemInstance)
      reads this
    {
      curDiskSpace + item.GetDiskUsage() <= maxCarryDisk && curDiskItems + 1 <= maxCarryItems
    }

    /** `AddItemToInventory`: the counters stay right exactly if the item was not in the list already. */
    method AddItemToInventory(item: CItemInstance?) returns (r: bool)
      requires Tallied()
      modifies `items, `curDiskSpace, `curDiskItems
      ensures r <==> item != null && old(Fits(item))
      ensures !r ==> items == old(items) && curDiskSpace == old(curDiskSpace) && curDiskItems == old(curDiskItems)
      ensures r ==> (Tallied() <==> item !in old(items))
      ensures r ==> items == [item] + Without(old(items), item)
      ensures r && item !in old(items) ==> items == [item] + old(items)
      ensures r && item !in old(items) ==> All() == old(All()) + multiset{item}
      ensures old(Valid()) && !r ==> Valid()
      ensures old(Valid()) && r ==> (Valid() <==> item !in old(All()))
    {
      hide DiskSum, Equipped, MaxOk, InTheirSlots, Without, OnePlace;
      DiskSumFirst(item, items);
      PlacesAfter(All(), item);
      if item == null { return false; }
      if curDiskSpace + item.GetDiskUsage() > maxCarryDisk { return false; }
      if curDiskItems + 1 > maxCarryItems { return false; }
      InsertHead(item);
      CarriedMore(old(items), items, item);
      curDiskSpace := curDiskSpace + item.GetDiskUsage();
      curDiskItems := curDiskItems + 1;
      return true;
    }

    /** `m_itemsOnPlayer.InsertHead`: a linked item leaves its old place first. */
    method InsertHead(item: CItemInstance)
      modifies `items
      ensures items == [item] + Without(old(items), item)
      ensures item !in old(items) ==> items == [item] + old(items)
      ensures item in old(items) ==> |items| == |old(items)|
    {
      if k :| 0 <= k < |items| && items[k] == item && item !in items[..k] {
        WithoutIs(items, k);
        items := [item] + Removed(items, k);
      } else {
        if item in items {
          FirstPlace(items, item);
        }
        WithoutNothing(items, item);
        items := [item] + items;
      }
    }

    /** `RemoveItemFromInventory`: the branch that resets the disk space is never taken. */
    method RemoveItemFromInventory(item: CItemInstance?) returns (r: bool)
      requires Tallied()
      modifies `items, `curDiskSpace, `curDiskItems
      ensures r <==> item in old(items)
      ensures Tallied()
      ensures !r ==> items == old(items) && curDiskSpace == old(curDiskSpace) && curDiskItems == old(curDiskItems)
      ensures r ==> items == Without(old(items), item)
      ensures r ==> multiset(old(items)) == multiset(items) + multiset{item}
      ensures r ==> curDiskSpace == old(curDiskSpace) - item.GetDiskUsage() && curDiskItems == old(curDiskItems) - 1
      ensures old(Valid()) ==> Valid()
    {
      hide DiskSum, Equipped, MaxOk, OnePlace, InTheirSlots;
      var found := false;
      var k := 0;
      while k < |items|
        invariant 0 <= k <= |items| && !found && item !in items[..k]
      {
        if items[k] == item {
          found := true;
          break;
        }
        k := k + 1;
      }
      if !found {
        assert items[..k] == items;
        return false;
      }
      WithoutIs(items, k);
      TakeOut(k);
      return true;
    }

    /** The end of `RemoveItemFromInventory`: the item found at `k` leaves the list. */
    method TakeOut(k: int)
      requires Tallied() && 0 <= k < |items|
      modifies `items, `curDiskSpace, `curDiskItems
      ensures Tallied() && items == old(Removed(items, k))
      ensures multiset(old(items)) == multiset(items) + multiset{old(items[k])}
      ensures curDiskSpace == old(curDiskSpace) - old(items[k]).GetDiskUsage() && curDiskItems == old(curDiskItems) - 1
      ensures old(Valid()) ==> Valid()
    {
      hide DiskSum, Equipped, MaxOk, OnePlace, InTheirSlots;
      var item := items[k];
      DiskSumRemoved(items, k);
      MultisetRemoved(items, k);
      FewerInPlace(multiset(Removed(items, k)) + Equipped(slots[..]), item);
      assert All() == multiset(Removed(items, k)) + Equipped(slots[..]) + multiset{item};
      items := Removed(items, k);
      curDiskSpace := Less(curDiskSpace, item.GetDiskUsage());
      curDiskItems := Less(curDiskItems, 1);
    }

    /** `EquipItem` moves an item from the list to its empty slot. */
    method EquipItem(item: CItemInstance?, slot: nat) returns (r: bool)
      requires Valid() && slot < EQUIP_SLOT_MAX
      modifies slots, `items, `curDiskSpace, `curDiskItems, `hp, `cpu, `memory, `maxHP, `maxCPU, `maxMemory
      ensures Valid() && All() == old(All())
      ensures r <==>
        (item != null && old(slots[slot]) == null && item.equipType == slot && item in old(items)
         && item.scriptLevel <= old(scriptLevel) && item.codeLevel <= old(codeLevel)
         && item.hackLevel <= old(hackLevel))
      ensures !r ==> unchanged(this) && unchanged(slots)
      ensures r ==> slots[..] == old(slots[..])[slot := item] && items == Without(old(items), item)
      ensures r ==>
        hp == AtMost(old(hp), maxHP) && cpu == AtMost(old(cpu), maxCPU) && memory == AtMost(old(memory), maxMemory)
      ensures r ==>
        Clamped(old(hp), hp, maxHP) && Clamped(old(cpu), cpu, maxCPU) && Clamped(old(memory), memory, maxMemory)
    {
      hide ModifierSum, Equipped, DiskSum, OnePlace, MaxOk, AtMost, Clamped, Tallied, Without;
      if item == null { return false; }
      if slots[slot] != null { return false; }
      if item.equipType != slot { return false; }
      if item.scriptLevel > scriptLevel || item.codeLevel > codeLevel || item.hackLevel > hackLevel { return false; }

      var removed := RemoveItemFromInventory(item);
      if !removed { return false; }

      PutInSlot(item, slot);
      assert All() == old(All());
      return true;
    }

    /** The item is in its slot from now on, and the stats follow. */
    method PutInSlot(item: CItemInstance, slot: nat)
      requires slots.Length == EQUIP_SLOT_MAX && slot < EQUIP_SLOT_MAX && slots[slot] == null && MaxOk(slots[..])
      modifies slots, `maxHP, `maxCPU, `maxMemory, `hp, `cpu, `memory
      ensures slots[..] == old(slots[..])[slot := item] && MaxOk(slots[..]) && hp <= maxHP && cpu <= maxCPU
      ensures memory <= maxMemory
      ensures Equipped(slots[..]) == old(Equipped(slots[..])) + multiset{item}
      ensures hp == AtMost(old(hp), maxHP) && cpu == AtMost(old(cpu), maxCPU)
      ensures memory == AtMost(old(memory), maxMemory)
      ensures Clamped(old(hp), hp, maxHP) && Clamped(old(cpu), cpu, maxCPU)
      ensures Clamped(old(memory), memory, maxMemory)
    {
      hide ModifierSum, Equipped, MaxOk, AtMost, Clamped;
      ghost var before := slots[..];
      slots[slot] := item;
      EquippedMore(before, slot, item);
      assert slots[..] == before[slot := item];
      AddModifiers(item, 1, before, slots[..]);
      ClampStats();
    }

    /** `UnequipItem` moves an item from its slot to the front of the list. */
    method UnequipItem(slot: nat) returns (r: bool, item: CItemInstance?)
      requires Valid() && slot < EQUIP_SLOT_MAX
      modifies slots, `items, `curDiskSpace, `curDiskItems, `hp, `cpu, `memory, `maxHP, `maxCPU, `maxMemory
      ensures Valid() && All() == old(All())
      ensures r <==> old(slots[slot]) != null && old(Fits(slots[slot]))
      ensures !r ==> unchanged(this) && unchanged(slots)
      ensures r ==>
        item == old(slots[slot]) && slots[..] == old(slots[..])[slot := null] && items == [item] + old(items)
      ensures r ==>
        hp == AtMost(old(hp), maxHP) && cpu == AtMost(old(cpu), maxCPU) && memory == AtMost(old(memory), maxMemory)
      ensures r ==>
        Clamped(old(hp), hp, maxHP) && Clamped(old(cpu), cpu, maxCPU) && Clamped(old(memory), memory, maxMemory)
    {
      hide ModifierSum, Equipped, DiskSum, OnePlace, MaxOk, AtMost, Clamped, Tallied, Without;
      item := null;
      if slots[slot] == null { return false, item; }
      if curDiskSpace + slots[slot].GetDiskUsage() > maxCarryDisk { return false, item; }
      if curDiskItems + 1 > maxCarryItems { return false, item; }

      NotBoth(items, slots[..], slot);
      var added := AddItemToInventory(slots[slot]);
      if !added { return false, item; }

      item := TakeFromSlot(slot);
      assert All() == old(All());
      return true, item;
    }

    /** The slot is empty from now on, and the stats follow. */
    method TakeFromSlot(slot: nat) returns (item: CItemInstance)
      requires slots.Length == EQUIP_SLOT_MAX && slot < EQUIP_SLOT_MAX && slots[slot] != null && MaxOk(slots[..])
      modifies slots, `maxHP, `maxCPU, `maxMemory, `hp, `cpu, `memory
      ensures item == old(slots[slot])
      ensures slots[..] == old(slots[..])[slot := null] && MaxOk(slots[..]) && hp <= maxHP && cpu <= maxCPU
      ensures memory <= maxMemory
      ensures old(Equipped(slots[..])) == Equipped(slots[..]) + multiset{item}
      ensures hp == AtMost(old(hp), maxHP) && cpu == AtMost(old(cpu), maxCPU)
      ensures memory == AtMost(old(memory), maxMemory)
      ensures Clamped(old(hp), hp, maxHP) && Clamped(old(cpu), cpu, maxCPU)
      ensures Clamped(old(memory), memory, maxMemory)
    {
      hide ModifierSum, Equipped, MaxOk, AtMost, Clamped;
      ghost var before := slots[..];
      item := slots[slot];
      slots[slot] := null;
      EquippedLess(before, slot);
      assert slots[..] == before[slot := null];
      AddModifiers(item, -1, before, slots[..]);
      ClampStats();
    }

    /** `m_MaxHP += …` or `-= …`, and the same for the other stats, in sixteen bits. */
    method AddModifiers(
      item: CItemInstance, sign: int, ghost before: seq<CItemInstance?>, ghost after: seq<CItemInstance?>)
      requires MaxOk(before) && sign in {1, -1}
      requires forall s :: ModifierSum(after, s) == ModifierSum(before, s) + Signed(sign, Modifier(item, s))
      modifies `maxHP, `maxCPU, `maxMemory
      ensures MaxOk(after)
    {
      hide ModifierSum;
      hide Modifier, Signed;
      Added(baseHP, before, after, item, sign, HP);
      Added(baseCPU, before, after, item, sign, CPU);
      Added(baseMemory, before, after, item, sign, Memory);
      Modifiers(item);
      maxHP := (maxHP + Signed(sign, item.modHP)) % W16;
      maxCPU := (maxCPU + Signed(sign, item.modCPU)) % W16;
      maxMemory := (maxMemory + Signed(sign, item.modMemory)) % W16;
    }

    method ClampStats()
      modifies `hp, `cpu, `memory
      ensures hp <= maxHP && cpu <= maxCPU && memory <= maxMemory
      ensures hp == AtMost(old(hp), maxHP) && cpu == AtMost(old(cpu), maxCPU)
      ensures memory == AtMost(old(memory), maxMemory)
      ensures Clamped(old(hp), hp, maxHP) && Clamped(old(cpu), cpu, maxCPU)
      ensures Clamped(old(memory), memory, maxMemory)
    {
      if hp > maxHP {
        hp := maxHP;
      }
      if cpu > maxCPU {
        cpu := maxCPU;
      }
      if memory > maxMemory {
        memory := maxMemory;
      }
    }
  }

  predicate Carries(items: seq<CItemInstance>, slots: seq<CItemInstance?>, item: CItemInstance?) {
    item != null && (item in items || item in slots)
  }

  lemma {:induction false} InSomeSlot(slots: seq<CItemInstance?>, item: CItemInstance)
    ensures item in slots <==> item in Equipped(slots)
  {
    if slots != [] {
      InSomeSlot(slots[1..], item);
      assert slots == [slots[0]] + slots[1..];
    }
  }

  /** The operation that is asked for, its answer, and whether it added an item the player had already. */
  method Do(p: CPlayer, o: Op) returns (r: bool, again: bool)
    requires p.Valid() && (o.Equip? || o.Unequip? ==> o.slot < EQUIP_SLOT_MAX)
    modifies p.slots, p`items, p`curDiskSpace, p`curDiskItems, p`hp, p`cpu, p`memory, p`maxHP, p`maxCPU, p`maxMemory
    ensures p.Lim() == old(p.Lim()) && p.Inv() == old(Step(p.Lim(), p.Inv(), o))
    ensures r <==> old(Succeeds(p.Lim(), p.Inv(), o))
    ensures again <==> old(Doubles(p.Lim(), p.Inv(), o))
    ensures p.Valid() <==> !again
  {
    hide CPlayer.Valid, CPlayer.Tallied, CPlayer.MaxOk, Equipped, DiskSum, ModifierSum, Without, Modifier, AtMost;
    hide Clamped, OnePlace, InTheirSlots, MaxStat;
    p.StateOf();
    again := false;
    match o {
      case Add(item) =>
        var carried := Carries(p.items, p.slots[..], item);
        if item != null {
          InSomeSlot(p.slots[..], item);
        }
        r := p.AddItemToInventory(item);
        again := r && carried;
      case Remove(item) =>
        r := p.RemoveItemFromInventory(item);
      case Equip(item, slot) =>
        r := p.EquipItem(item, slot);
        p.MaximaOf();
      case Unequip(slot) =>
        if p.slots[slot] != null {
          NotBoth(p.items, p.slots[..], slot);
          WithoutNothing(p.items, p.slots[slot]);
        }
        var item;
        r, item := p.UnequipItem(slot);
        p.MaximaOf();
    }
  }

  /**
   A run of the four operations, which does and answers what the step by step account says. The
   invariant holds until an item is added that the player has already: that ends the run and is the
   only way to lose the invariant. Up to there no item is lost or doubled. The limits and the stats
   without equipment stay what they are.
   */
  method Run(p: CPlayer, ops: seq<Op>) returns (n: nat, results: seq<bool>)
    requires p.Valid() && forall o :: o in ops && (o.Equip? || o.Unequip?) ==> o.slot < EQUIP_SLOT_MAX
    modifies p.slots, p`items, p`curDiskSpace, p`curDiskItems, p`hp, p`cpu, p`memory, p`maxHP, p`maxCPU, p`maxMemory
    ensures n == |results| && Went(old(p.Lim()), old(p.Inv()), ops, results)
    ensures n < |ops| ==> !Harmless(old(p.Lim()), old(p.Inv()), ops, n)
    ensures n == |ops| <==> p.Valid()
    ensures p.Lim() == old(p.Lim())
    ensures p.Inv() == Steps(old(p.Lim()), old(p.Inv()), if n < |ops| then ops[..n + 1] else ops)
    ensures Items(Steps(old(p.Lim()), old(p.Inv()), ops[..n])) + RemovedBy(ops[..n], results)
      == old(p.All()) + AddedBy(ops[..n], results)
  {
    hide CPlayer.Valid, CPlayer.Inv, CPlayer.Lim, CPlayer.All, Succeeds, Step, Steps, Doubles, Items, OnePlace, Went;
    hide AddedBy, RemovedBy;
    ghost var lim, inv := p.Lim(), p.Inv();
    NothingYet(lim, inv, ops);
    p.StateOf();
    n, results := 0, [];
    while n < |ops|
      invariant n == |results| && n <= |ops| && p.Valid() && p.Lim() == lim
      invariant Went(lim, inv, ops, results) && p.Inv() == Steps(lim, inv, ops[..n])
    {
      assert ops[n] in ops;
      StepsOn(lim, inv, ops, n);
      var r, again := Do(p, ops[n]);
      if again {
        PartConserves(lim, inv, ops, results);
        return n, results;
      }
      WentOn(lim, inv, ops, results, r);
      n, results := n + 1, results + [r];
    }
    assert ops[..n] == ops;
    PartConserves(lim, inv, ops, results);
  }

  lemma PartConserves(lim: Limits, inv: Inventory, ops: seq<Op>, results: seq<bool>)
    requires OnePlace(Items(inv)) && Went(lim, inv, ops, results)
    ensures |results| <= |ops|
    ensures var part := ops[..|results|];
      Items(Steps(lim, inv, part)) + RemovedBy(part, results) == Items(inv) + AddedBy(part, results)
  {
    hide OnePlace, Items, Succeeds, Doubles, Steps, AddedBy, RemovedBy;
    var part := ops[..|results|];
    forall i | 0 <= i < |part|
      ensures Harmless(lim, inv, part, i) && (results[i] <==> Succeeds(lim, Steps(lim, inv, part[..i]), part[i]))
    {
      assert part[..i] == ops[..i] && Harmless(lim, inv, ops, i);
    }
    RunConserves(lim, inv, part, results);
  }

  lemma EquippedMore(slots: seq<CItemInstance?>, k: int, item: CItemInstance)
    requires 0 <= k < |slots| && slots[k] == null
    ensures Equipped(slots[k := item]) == Equipped(slots) + multiset{item}
    ensures forall s :: ModifierSum(slots[k := item], s) == ModifierSum(slots, s) + Modifier(item, s)
  {
    forall s: Stat
      ensures ModifierSum(slots[k := item], s) == ModifierSum(slots, s) + Modifier(item, s)
    {
      SlotFilled(slots, k, item, s);
    }
    SlotFilled(slots, k, item, HP);
  }

  lemma EquippedLess(slots: seq<CItemInstance?>, k: int)
    requires 0 <= k < |slots| && slots[k] != null
    ensures Equipped(slots) == Equipped(slots[k := null]) + multiset{slots[k]}
    ensures forall s :: ModifierSum(slots, s) == ModifierSum(slots[k := null], s) + Modifier(slots[k], s)
  {
    forall s: Stat
      ensures ModifierSum(slots, s) == ModifierSum(slots[k := null], s) + Modifier(slots[k], s)
    {
      Emptied(slots, k, s);
    }
    Emptied(slots, k, HP);
  }

  /** An equipped item is not in the list. */
  lemma NotBoth(items: seq<CItemInstance>, slots: seq<CItemInstance?>, k: int)
    requires OnePlace(multiset(items) + Equipped(slots)) && 0 <= k < |slots| && slots[k] != null
    ensures slots[k] !in items
  {
    InSlot(slots, k);
    var all := multiset(items) + Equipped(slots);
    assert slots[k] in all && all[slots[k]] == 1;
    assert multiset(items)[slots[k]] + Equipped(slots)[slots[k]] == 1;
  }

  lemma {:induction false} NothingEquipped(slots: seq<CItemInstance?>)
    requires forall k :: 0 <= k < |slots| ==> slots[k] == null
    ensures Equipped(slots) == multiset{} && forall s :: ModifierSum(slots, s) == 0
  {
    if slots != [] {
      NothingEquipped(slots[1..]);
    }
  }
}