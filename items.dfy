/** The game-server side of the host API, reduced to what the serializer touches: the
    material, enchantment and item-flag enumerations as lookup tables, item metadata as a
    value (Bukkit hands out and stores copies of it), and the item stack as a mutable object. */
module Items {
  import opened Wrappers

  /** A game material (org.bukkit.Material). */
  datatype Material = Material(key: string)

  /** An entry of the XSeries material shim (XMaterial). */
  datatype XMaterial = XMaterial(key: string)

  /** An enchantment type (org.bukkit.enchantments.Enchantment), known by its legacy name. */
  datatype Enchantment = Enchantment(name: string)

  /** A constant of the ItemFlag enumeration, known by its name. */
  datatype ItemFlag = ItemFlag(name: string)

  /** The metadata of an item stack. `storedEnchants` is the part that only an enchanted
      book's EnchantmentStorageMeta carries. */
  datatype ItemMeta = ItemMeta(
    displayName: Option<string>,
    lore: seq<string>,
    enchants: map<Enchantment, int>,
    storedEnchants: map<Enchantment, int>,
    customModelData: Option<int>,
    unbreakable: bool,
    flags: set<ItemFlag>)

  /** The observable state of an item stack; `meta` is None where the host has no
      metadata for the material (getItemMeta returns null). */
  datatype ItemState = ItemState(material: Material, amount: int, durability: int, meta: Option<ItemMeta>)

  /** The lookups the serializer makes into the host and the XSeries shim. */
  datatype Host = Host(
    matchMaterial: map<string, XMaterial>,       // XMaterial.matchXMaterial(name)
    parseItem: map<XMaterial, ItemState>,        // XMaterial.parseItem(), absent where it returns null
    enchantedBook: Option<Material>,             // XMaterial.ENCHANTED_BOOK.parseMaterial()
    enchantmentByName: map<string, Enchantment>, // Enchantment.getByName(name), absent where null
    glowEnchantment: Enchantment,                // Enchantment.PROTECTION_ENVIRONMENTAL
    itemFlags: seq<ItemFlag>)                    // ItemFlag.values(), in declaration order

  /** ItemFlag.valueOf(name): the constant with exactly that name, or None where valueOf throws. */
  function FlagValueOf(h: Host, name: string): (r: Option<ItemFlag>)
    ensures r.Some? <==> ItemFlag(name) in h.itemFlags
    ensures r.Some? ==> r.value.name == name
  {
    if ItemFlag(name) in h.itemFlags then Some(ItemFlag(name)) else None
  }

  /** An item stack (org.bukkit.inventory.ItemStack). The durability is the stack's own
      `short` field, as in the legacy API. */
  class ItemStack {
    var material: Material
    var amount: int
    var durability: int
    var meta: Option<ItemMeta>

    function State(): ItemState
      reads this
    {
      ItemState(material, amount, durability, meta)
    }

    constructor (s: ItemState)
      ensures State() == s
    {
      material, amount, durability, meta := s.material, s.amount, s.durability, s.meta;
    }

    /** addUnsafeEnchantments(enchantments): every entry goes into the metadata's
        enchantments, replacing the level already there; nothing happens without metadata. */
    method AddUnsafeEnchantments(enchantments: map<Enchantment, int>)
      modifies this
      ensures material == old(material) && amount == old(amount) && durability == old(durability)
      ensures old(meta).None? ==> meta == old(meta)
      ensures old(meta).Some? ==> meta == Some(old(meta).value.(enchants := old(meta).value.enchants + enchantments))
    {
      if meta.Some? {
        meta := Some(meta.value.(enchants := meta.value.enchants + enchantments));
      }
    }
  }
}
