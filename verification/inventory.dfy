/** The contents of one virtual chest: a fixed row of slots, each empty or
    holding a stack of items. The item stacks themselves are opaque. */
module Inventory {

  datatype ItemStack = ItemStack(material: string, amount: nat)

  /** Bukkit reports an empty slot as a null item. */
  datatype Slot = Empty | Holding(stack: ItemStack)

  type Inventory = seq<Slot>

  const Rows: nat := 6
  const Columns: nat := 9

  /** A double chest: six rows of nine slots. */
  const ChestSize: nat := Rows * Columns

  /** The chest Bukkit's createInventory(null, 6 * 9) hands out. */
  function EmptyChest(): (c: Inventory)
    ensures |c| == ChestSize == 54
    ensures forall i :: 0 <= i < |c| ==> c[i] == Empty
  {
    seq(ChestSize, _ => Empty)
  }
}
