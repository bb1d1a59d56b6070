/** The configuration side of the host API: a YAML configuration section read through
    Bukkit's ConfigurationSection getters, and the table of key names that the GUI
    framework's GuiConfigurationTable supplies. */
module Config {
  import opened Wrappers
  import opened JavaText

  /** A value stored under a key of a configuration section. */
  datatype ConfigValue =
    | StringValue(s: string)
    | IntValue(i: int)
    | BoolValue(b: bool)
    | StringListValue(items: seq<string>)

  /** A configuration section: the values set under its (flat) keys. */
  type Section = map<string, ConfigValue>

  /** The key names of one item stack's fields (GuiConfigurationTable's getters). */
  datatype SectionNames = SectionNames(
    material: string,
    displayName: string,
    lore: string,
    amount: string,
    durability: string,
    enchantments: string,
    itemFlags: string,
    customModelData: string,
    unbreakable: string,
    glow: string)

  /** section.isSet(key). */
  predicate IsSet(section: Section, key: string)
  {
    key in section
  }

  /** section.getString(key): null when the key is not set, otherwise the value's toString. */
  function GetString(section: Section, key: string): Option<string>
  {
    if key !in section then None
    else match section[key]
      case StringValue(s) => Some(s)
      case IntValue(i) => Some(IntToString(i))
      case BoolValue(b) => Some(BoolToString(b))
      case StringListValue(items) => Some(ListToString(items))
  }

  /** section.getStringList(key): the list stored under the key, or an empty list when the
      key is not set or holds something other than a list. */
  function GetStringList(section: Section, key: string): seq<string>
  {
    if key in section && section[key].StringListValue? then section[key].items else []
  }

  /** section.getInt(key, def): the number stored under the key, or def when there is none. */
  function GetInt(section: Section, key: string, def: int): int
  {
    if key in section && section[key].IntValue? then section[key].i else def
  }

  /** section.getBoolean(key): the boolean stored under the key, or false. */
  predicate GetBoolean(section: Section, key: string)
  {
    key in section && section[key].BoolValue? && section[key].b
  }
}
