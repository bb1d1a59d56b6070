# ItemStackSerializer, modelled in Dafny

The configurable GUI module of obliviate-invs builds item stacks from YAML configuration
sections. A GUI configuration names each icon with keys such as `material`,
`display-name`, `lore`, `amount`, `durability`, `enchantments`, `item-flags`,
`custom-model-data`, `unbreakable` and `glow`. `ItemStackSerializer` reads those keys and
builds a Bukkit `ItemStack`. This project models what the serializer does with the values it
reads, and proves the rules it follows:

- how the material is resolved, with its three failure cases;
- how `NAME:LEVEL` enchantment entries are split and parsed, following Java's
  `String.split` and `Integer.parseInt`;
- how the enchantment list becomes a map in which the last entry wins and any bad entry
  aborts the call;
- how item-flag names fill the flag array, including `"*"` and array overflow;
- how flags, enchantments, colour codes and the optional fields are applied to the item.

Modules:

- `Wrappers`: `Option`, `Result` and `Outcome`. A thrown exception becomes a `Failure` or a
  `Fail` carrying an `ItemStackSerializer.Error`.
- `JavaText`: the parts of `java.lang` the parser relies on. These are
  `String.split(":")`, with trailing empty strings discarded; `Integer.parseInt` and its
  inverse `Integer.toString`; the `(short)` cast; and the `toString` conversions behind
  `getString`.
- `Config`: a configuration section as a map from key to a tagged value, read through the
  `ConfigurationSection` getters (`isSet`, `getString`, `getStringList`, `getInt`,
  `getBoolean`), plus the table of key names (`GuiConfigurationTable`).
- `Items`: the host API as data. The material, enchantment and item-flag enumerations are
  lookup tables (`Host`). `ItemMeta` is a value, because Bukkit hands out and stores copies
  of it. `ItemStack` is a class whose fields the serializer updates in place.
- `ItemStackSerializer`: the serializer itself. The pure parsers are functions. The loops
  and the operations that change an item are methods, each proved against a specification
  function (`EnchantmentsOf`, `Present`, `NamedFlags`, `FinalEnchants`).

## Model

| member | source | states |
|---|---|---|
| ItemStackSerializer.DeserializeMaterial | configurablegui/src/main/java/mc/obliviate/inventory/configurable/util/ItemStackSerializer.java:53-67 | A missing material key is exactly the `MissingMaterial` failure. The call succeeds iff the name is set, XMaterial matches it and `parseItem` yields a stack; that stack is the result. Otherwise an unknown name and an unparsable one fail with their own errors. |
| JavaText.Split | configurablegui/src/main/java/mc/obliviate/inventory/configurable/util/ItemStackSerializer.java:211 | No part contains the separator, and a string without the separator is its own single part. |
| JavaText.SplitDropsOnlyTrailingEmpties | configurablegui/src/main/java/mc/obliviate/inventory/configurable/util/ItemStackSerializer.java:211 | Where the separator occurs, the parts are a prefix of all pieces. The last part is non-empty, and only empty pieces were dropped after it. |
| JavaText.JoinPieces | configurablegui/src/main/java/mc/obliviate/inventory/configurable/util/ItemStackSerializer.java:211 | Joining the pieces with the separator gives back the original string, so splitting loses nothing. |
| JavaText.SplitPair | configurablegui/src/main/java/mc/obliviate/inventory/configurable/util/ItemStackSerializer.java:211-212 | `a:b` followed by any number of `:` splits into exactly `[a, b]` when neither contains `:` and b is non-empty, so `"A:1:"` has two parts. |
| JavaText.SplitTrailingSeparator | configurablegui/src/main/java/mc/obliviate/inventory/configurable/util/ItemStackSerializer.java:211-212 | `a:` splits into the single part `[a]`, so `"A:"` has one part. |
| JavaText.ParseInt | configurablegui/src/main/java/mc/obliviate/inventory/configurable/util/ItemStackSerializer.java:217 | A parsed value lies in the `int` range. Only a non-empty string of digits after an optional `-` or `+` sign parses. `""`, `"-"` and `"+"` are rejected. |
| JavaText.ParseIntOfDigits | configurablegui/src/main/java/mc/obliviate/inventory/configurable/util/ItemStackSerializer.java:217 | A digit string, bare or after `+`, parses to its value exactly when that value fits in an `int`. After `-` it parses to the negated value exactly when that fits. Any overflow is rejected. |
| JavaText.ParseIntToString | configurablegui/src/main/java/mc/obliviate/inventory/configurable/util/ItemStackSerializer.java:217 | Every `int` that `Integer.toString` writes is read back to the same value by `Integer.parseInt`. |
| JavaText.ToShort | configurablegui/src/main/java/mc/obliviate/inventory/configurable/util/ItemStackSerializer.java:121 | The `(short)` cast lies in [-32768, 32767] and agrees with its argument modulo 65536. A value already in range is unchanged. |
| ItemStackSerializer.DeserializeEnchantment | configurablegui/src/main/java/mc/obliviate/inventory/configurable/util/ItemStackSerializer.java:209-222 | The entry is malformed iff it does not split into exactly two parts, and an entry without `:` is always malformed. The call succeeds iff there are two parts, the name is known and the level parses; the result is then (lookup(name), parseInt(level)), with the level an `int`. An unparsable level fails as unresolved, and is reported before an unknown name. A parsable level with an unknown name fails as an unknown enchantment. |
| ItemStackSerializer.TrailingSeparatorsIgnored | configurablegui/src/main/java/mc/obliviate/inventory/configurable/util/ItemStackSerializer.java:209-222 | The text `NAME:LEVEL` of an entry, followed by any number of `:`, parses back to that entry. |
| ItemStackSerializer.EnchantmentRoundTrip | configurablegui/src/main/java/mc/obliviate/inventory/configurable/util/ItemStackSerializer.java:209-222 | Parsing the `NAME:LEVEL` text of an entry gives the entry back. |
| ItemStackSerializer.MissingLevelIsMalformed | configurablegui/src/main/java/mc/obliviate/inventory/configurable/util/ItemStackSerializer.java:211-212 | `NAME:`, with no level, fails as a malformed entry. |
| ItemStackSerializer.ParseAll | configurablegui/src/main/java/mc/obliviate/inventory/configurable/util/ItemStackSerializer.java:202-205 | Parsing a list in order succeeds iff every entry parses, with the entries' values elementwise. On failure the error is that of the first entry that fails. |
| ItemStackSerializer.ParseAllStep | configurablegui/src/main/java/mc/obliviate/inventory/configurable/util/ItemStackSerializer.java:202-205 | One more entry either extends the parsed prefix by its value, or ends the whole list with its error. |
| ItemStackSerializer.ParseAllPrefixFailure | configurablegui/src/main/java/mc/obliviate/inventory/configurable/util/ItemStackSerializer.java:202-205 | A failure within a prefix is the failure of the whole list. |
| ItemStackSerializer.ParseAllSucceeds | configurablegui/src/main/java/mc/obliviate/inventory/configurable/util/ItemStackSerializer.java:202-205 | Entries that each parse to a value parse, together, to the list of those values. |
| ItemStackSerializer.CollectLastWins | configurablegui/src/main/java/mc/obliviate/inventory/configurable/util/ItemStackSerializer.java:201-206 | The map built by successive `put`s has exactly the named enchantments as keys. Each key maps to the level of the last entry naming it. |
| ItemStackSerializer.CollectAppend | configurablegui/src/main/java/mc/obliviate/inventory/configurable/util/ItemStackSerializer.java:204 | Putting one more entry updates only that entry's key. |
| ItemStackSerializer.EnchantmentsOf | configurablegui/src/main/java/mc/obliviate/inventory/configurable/util/ItemStackSerializer.java:199-200 | When the enchantments key is not set, the result is an empty map. |
| ItemStackSerializer.EnchantmentsLastWins | configurablegui/src/main/java/mc/obliviate/inventory/configurable/util/ItemStackSerializer.java:199-207 | On success every entry parsed, and the map's keys are exactly the parsed enchantments. Each maps to the level of the last entry naming it. |
| ItemStackSerializer.EnchantmentsFailFast | configurablegui/src/main/java/mc/obliviate/inventory/configurable/util/ItemStackSerializer.java:202-205 | If any entry fails to parse, the whole call fails, with the error of the first failing entry. |
| ItemStackSerializer.DeserializeEnchantments | configurablegui/src/main/java/mc/obliviate/inventory/configurable/util/ItemStackSerializer.java:199-207 | The loop of `map.put`s returns exactly `EnchantmentsOf`: the empty map for an unset key, the last-wins map, or the first entry's error. |
| ItemStackSerializer.EnchantmentListRoundTrip | configurablegui/src/main/java/mc/obliviate/inventory/configurable/util/ItemStackSerializer.java:202-205 | The `NAME:LEVEL` texts of a list of entries parse back to that list. |
| ItemStackSerializer.CollectOfListing | configurablegui/src/main/java/mc/obliviate/inventory/configurable/util/ItemStackSerializer.java:201-206 | Collecting any listing of a map's entries gives the map back. |
| ItemStackSerializer.EnchantmentMapRoundTrip | configurablegui/src/main/java/mc/obliviate/inventory/configurable/util/ItemStackSerializer.java:199-222 | A section whose list is the `NAME:LEVEL` texts of a map's entries, in any order, deserializes to that map. |
| ItemStackSerializer.ApplyEnchantmentsToItemStack | configurablegui/src/main/java/mc/obliviate/inventory/configurable/util/ItemStackSerializer.java:179-193 | An empty map, or an item without metadata, changes nothing. An enchanted book gets the map added to its stored enchantments. Any other item gets it added to its enchantments. Material, amount and durability are unchanged. |
| Items.ItemStack.AddUnsafeEnchantments | configurablegui/src/main/java/mc/obliviate/inventory/configurable/util/ItemStackSerializer.java:191 | Every entry is added to the metadata's enchantments, replacing an existing level. An item without metadata is unchanged. |
| Items.FlagValueOf | configurablegui/src/main/java/mc/obliviate/inventory/configurable/util/ItemStackSerializer.java:168 | `ItemFlag.valueOf` succeeds iff a constant has exactly that name, and returns that constant. |
| ItemStackSerializer.DeserializeItemFlags | configurablegui/src/main/java/mc/obliviate/inventory/configurable/util/ItemStackSerializer.java:155-177 | The array has one slot per flag constant. An empty list leaves every slot null, and `"*"` gives the full enumeration whatever else is listed. Otherwise the call succeeds iff the list fits and every name is valid; the names then fill slots 0..k-1 in order and later slots stay null. On failure the error names the first unknown or overflowing entry. |
| ItemStackSerializer.PresentMembership | configurablegui/src/main/java/mc/obliviate/inventory/configurable/util/ItemStackSerializer.java:144-147 | A flag is among the non-null entries iff some slot holds it. |
| ItemStackSerializer.ApplyItemFlagsToItemStacks | configurablegui/src/main/java/mc/obliviate/inventory/configurable/util/ItemStackSerializer.java:137-149 | An item without metadata fails. Otherwise its flag set becomes the old set united with the non-null entries. An empty array changes nothing, and no other field changes. |
| ItemStackSerializer.ParsedFlagsPresent | configurablegui/src/main/java/mc/obliviate/inventory/configurable/util/ItemStackSerializer.java:159-176 | The non-null slots of a parsed flag array are exactly the selected flags: all constants for `"*"`, none for an empty list, and otherwise the named ones. |
| ItemStackSerializer.ParseColorOfItemStack | configurablegui/src/main/java/mc/obliviate/inventory/configurable/util/ItemStackSerializer.java:235-242 | A null item is left alone, and an item without metadata fails. Otherwise the display name and every lore line are colour-translated. Nothing else changes. |
| ItemStackSerializer.ApplyOptionalFields | configurablegui/src/main/java/mc/obliviate/inventory/configurable/util/ItemStackSerializer.java:115-128 | Custom model data and durability (the `(short)` cast) change only when their keys are set, and `unbreakable: true` sets unbreakability. Glow adds the placeholder enchantment only when the item has no enchantments, and the item flags stay as they were. |
| ItemStackSerializer.ConfigureItemFlags | configurablegui/src/main/java/mc/obliviate/inventory/configurable/util/ItemStackSerializer.java:130 | The flag step succeeds iff the names are accepted, and then adds exactly the selected flags. Failure is an unknown item flag. |
| ItemStackSerializer.ConfigureItem | configurablegui/src/main/java/mc/obliviate/inventory/configurable/util/ItemStackSerializer.java:108-131 | After the material is resolved, an enchantment error is reported before a flag error. On success: the amount is the configured one, else 1; the name and lore are colour-translated; enchantments go to the book's storage or the item; the glow rule and the optional fields apply; and the selected flags are added. |
| ItemStackSerializer.DeserializeItemStack | configurablegui/src/main/java/mc/obliviate/inventory/configurable/util/ItemStackSerializer.java:100-135 | The call succeeds iff material, metadata, enchantments and flags all do. A missing or unknown material fails before any other key is read, then a null metadata, an enchantment error and a flag error in that order. On success the fresh item carries every field rule above. |

## Left out

- XMaterial matching and `parseItem`, `Enchantment.getByName` and `ItemFlag.valueOf` are
  not reimplemented. They are the lookup tables of `Items.Host`.
- `StringUtil.parseColor` is not part of this model. It is a function parameter applied to
  the display name and to each lore line, and an absent name stays absent.
- `applyPlaceholdersToItemStack` is not modelled: `PlaceholderUtil`, whose result it
  stores, is not part of this model.
- The overloads that fall back to `GuiConfigurationTable.getDefaultConfigurationTable()`
  (a process-wide default) are left out, as is the `table == null` fallback of the
  two-argument methods. The model always receives a table of key names.
- The glow step adds `HIDE_ENCHANTS` to the set that `getItemFlags()` returns. Bukkit
  returns a copy, so this is modelled as having no effect and no contract claims the flag
  is set. So `glow: true` alone does not hide the enchantment list; `HIDE_ENCHANTS` must
  also be listed under the item flags.
- Durability is the stack's own `short` field, as in the legacy API. On modern servers it
  lives in the metadata, and the `setItemMeta` that follows can override it; that variant
  is not modelled.
- Configuration sections are flat maps. Defaults sections, nested sections and dotted paths
  are not modelled. A string list holds only strings.
- Numbers in a section are unbounded integers. YAML longs and doubles, and `getInt`'s
  narrowing of them, are not modelled.
- JavaText.ParseInt: accepts ASCII digits only. `Integer.parseInt` also accepts other
  Unicode decimal digits.
- ApplyEnchantmentsToItemStack: the book's stored enchantments are added one key at a time,
  in an arbitrary order that is not `HashMap.entrySet()` order. The resulting map does not
  depend on the order, because the keys are distinct. The legacy and modern storage of
  enchantments inside the host are not distinguished.
- ApplyItemFlagsToItemStacks, ApplyEnchantmentsToItemStack: the failures on null arguments
  are not modelled, because the parameter types are non-null. These are the
  `checkNotNull(itemFlags)` check and the NullPointerException on a null map or item.
  deserializeItemStack never passes null.
- The exception messages are reduced to the `Error` constructor and the offending name or
  entry.
