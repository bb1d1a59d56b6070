/** ItemStackSerializer: turns a configuration section into an item stack. Every operation
    fails fast; the Java exceptions become the `Error` values below. */
module ItemStackSerializer {
  import opened Wrappers
  import opened JavaText
  import opened Config
  import opened Items

  /** The exceptions the serializer throws, one constructor per distinct cause. */
  datatype Error =
    | MissingMaterial                   // no material name under the material key
    | UnknownMaterial(name: string)     // XMaterial does not know the name
    | UnparsableMaterial(name: string)  // XMaterial knows it but yields no item stack
    | NullMetadata                      // the item stack has no metadata
    | MalformedEnchantment(entry: string) // the entry does not split into two parts
    | UnresolvedEnchantment(name: string) // the level part is not an int
    | UnknownEnchantment(name: string)  // no enchantment has the name
    | UnknownItemFlag(name: string)     // no item flag has the name, or the flag array is full

  // ===== Materials =====

  /** deserializeMaterial(section, table): the item stack XMaterial builds for the configured
      material name. */
  function DeserializeMaterial(h: Host, section: Section, table: SectionNames): (r: Result<ItemState, Error>)
    ensures r == Failure(MissingMaterial) <==> !IsSet(section, table.material)
    ensures r.Success? <==>
      && GetString(section, table.material).Some?
      && GetString(section, table.material).value in h.matchMaterial
      && h.matchMaterial[GetString(section, table.material).value] in h.parseItem
    ensures r.Success? ==> r.value == h.parseItem[h.matchMaterial[GetString(section, table.material).value]]
    ensures r.Failure? && IsSet(section, table.material) ==>
      var name := GetString(section, table.material).value;
      r.error == (if name in h.matchMaterial then UnparsableMaterial(name) else UnknownMaterial(name))
  {
    match GetString(section, table.material)
    case None => Failure(MissingMaterial)
    case Some(name) =>
      if name !in h.matchMaterial then Failure(UnknownMaterial(name))
      else if h.matchMaterial[name] !in h.parseItem then Failure(UnparsableMaterial(name))
      else Success(h.parseItem[h.matchMaterial[name]])
  }

  // ===== Enchantments =====

  /** One parsed `NAME:LEVEL` entry (the private Pair class). */
  datatype EnchantmentLevel = EnchantmentLevel(enchantment: Enchantment, level: int)

  /** deserializeEnchantment(entry): the entry must split on ':' into exactly two parts; a
      level that Integer.parseInt rejects is reported before a name that Enchantment.getByName
      does not know, because only the former throws inside the try block. */
  function DeserializeEnchantment(h: Host, entry: string): (r: Result<EnchantmentLevel, Error>)
    ensures r == Failure(MalformedEnchantment(entry)) <==> |Split(entry, ':')| != 2
    ensures ':' !in entry ==> r == Failure(MalformedEnchantment(entry))
    ensures r.Success? <==>
      && |Split(entry, ':')| == 2
      && Split(entry, ':')[0] in h.enchantmentByName
      && ParseInt(Split(entry, ':')[1]).Some?
    ensures r.Success? ==>
      && r.value.enchantment == h.enchantmentByName[Split(entry, ':')[0]]
      && r.value.level == ParseInt(Split(entry, ':')[1]).value
      && IntMin <= r.value.level <= IntMax
    ensures |Split(entry, ':')| == 2 && ParseInt(Split(entry, ':')[1]).None? ==>
      r == Failure(UnresolvedEnchantment(Split(entry, ':')[0]))
    ensures |Split(entry, ':')| == 2 && ParseInt(Split(entry, ':')[1]).Some? && Split(entry, ':')[0] !in h.enchantmentByName ==>
      r == Failure(UnknownEnchantment(Split(entry, ':')[0]))
  {
    var parts := Split(entry, ':');
    if |parts| != 2 then Failure(MalformedEnchantment(entry))
    else
      var level := ParseInt(parts[1]);
      if level.None? then Failure(UnresolvedEnchantment(parts[0]))
      else if parts[0] !in h.enchantmentByName then Failure(UnknownEnchantment(parts[0]))
      else Success(EnchantmentLevel(h.enchantmentByName[parts[0]], level.value))
  }

  /** The parser of one `NAME:LEVEL` entry against the host's enchantment table. */
  function EntryParser(h: Host): string -> Result<EnchantmentLevel, Error>
  {
    entry => DeserializeEnchantment(h, entry)
  }

  /** Every entry parsed in order by `parse`, stopping at the first one that fails: the
      loop of deserializeEnchantments, where the first exception ends the call. */
  function ParseAll<T>(parse: string -> Result<T, Error>, entries: seq<string>): (r: Result<seq<T>, Error>)
    ensures r.Success? <==> forall i :: 0 <= i < |entries| ==> parse(entries[i]).Success?
    ensures r.Success? ==> |r.value| == |entries|
    ensures r.Success? ==> forall i :: 0 <= i < |entries| ==> parse(entries[i]) == Success(r.value[i])
    ensures r.Failure? ==> exists k :: 0 <= k < |entries| && parse(entries[k]) == Failure(r.error)
                                       && forall j :: 0 <= j < k ==> parse(entries[j]).Success?
    decreases |entries|
  {
    if entries == [] then Success([])
    else
      var n := |entries| - 1;
      assert forall i :: 0 <= i < n ==> entries[..n][i] == entries[i];
      match ParseAll(parse, entries[..n])
      case Failure(e) => Failure(e)
      case Success(done) =>
        match parse(entries[n])
        case Failure(e) => Failure(e)
        case Success(p) => Success(done + [p])
  }

  /** The i-th entry names its enchantment for the last time. */
  ghost predicate IsLast(ps: seq<EnchantmentLevel>, i: int)
    requires 0 <= i < |ps|
  {
    forall j :: i < j < |ps| ==> ps[j].enchantment != ps[i].enchantment
  }

  /** The enchantments the entries name. */
  function Named(ps: seq<EnchantmentLevel>): set<Enchantment>
  {
    set i | 0 <= i < |ps| :: ps[i].enchantment
  }

  lemma NamedAppend(ps: seq<EnchantmentLevel>, p: EnchantmentLevel)
    ensures Named(ps + [p]) == Named(ps) + {p.enchantment}
  {
    var qs := ps + [p];
    forall e | e in Named(qs) ensures e in Named(ps) + {p.enchantment} {
      var i :| 0 <= i < |qs| && qs[i].enchantment == e;
      if i < |ps| { assert ps[i] == qs[i]; }
    }
    forall e | e in Named(ps) ensures e in Named(qs) {
      var i :| 0 <= i < |ps| && ps[i].enchantment == e;
      assert qs[i] == ps[i];
    }
    assert qs[|ps|] == p;
  }

  /** The map that putting the entries into an empty map one after another produces
      (HashMap.put, so a later entry replaces an earlier one for the same enchantment). */
  function Collect(ps: seq<EnchantmentLevel>): map<Enchantment, int>
    decreases |ps|
  {
    if ps == [] then map[]
    else
      var n := |ps| - 1;
      Collect(ps[..n])[ps[n].enchantment := ps[n].level]
  }

  /** Last one wins: the collected map's keys are exactly the named enchantments, and each
      maps to the level of the last entry that names it. */
  lemma {:induction false} CollectLastWins(ps: seq<EnchantmentLevel>)
    ensures Collect(ps).Keys == Named(ps)
    ensures forall i :: 0 <= i < |ps| && IsLast(ps, i) ==> Collect(ps)[ps[i].enchantment] == ps[i].level
    decreases |ps|
  {
    if ps != [] {
      var n := |ps| - 1;
      var earlier := ps[..n];
      CollectLastWins(earlier);
      assert earlier + [ps[n]] == ps;
      NamedAppend(earlier, ps[n]);
      forall i | 0 <= i < |ps| && IsLast(ps, i)
        ensures Collect(ps)[ps[i].enchantment] == ps[i].level
      {
        if i < n {
          assert ps[n].enchantment != ps[i].enchantment;
          assert earlier[i] == ps[i];
          assert IsLast(earlier, i) by {
            forall j | i < j < n ensures earlier[j].enchantment != earlier[i].enchantment {
              assert earlier[j] == ps[j];
            }
          }
        }
      }
    }
  }

  /** Every named enchantment has a last entry. */
  lemma {:induction false} LastEntryExists(ps: seq<EnchantmentLevel>, e: Enchantment)
    requires e in Named(ps)
    ensures exists i :: 0 <= i < |ps| && ps[i].enchantment == e && IsLast(ps, i)
    decreases |ps|
  {
    var n := |ps| - 1;
    if ps[n].enchantment != e {
      assert ps[..n] + [ps[n]] == ps;
      NamedAppend(ps[..n], ps[n]);
      LastEntryExists(ps[..n], e);
      var i :| 0 <= i < n && ps[..n][i].enchantment == e && IsLast(ps[..n], i);
      assert ps[i] == ps[..n][i] && IsLast(ps, i);
    }
  }

  /** What deserializeEnchantments returns: an empty map when the key is not set, otherwise
      the collected entries, or the first entry's error. */
  function EnchantmentsOf(h: Host, section: Section, table: SectionNames): (r: Result<map<Enchantment, int>, Error>)
    ensures !IsSet(section, table.enchantments) ==> r == Success(map[])
  {
    if !IsSet(section, table.enchantments) then Success(map[])
    else
      match ParseAll(EntryParser(h), GetStringList(section, table.enchantments))
      case Failure(e) => Failure(e)
      case Success(ps) => Success(Collect(ps))
  }

  /** The map deserializeEnchantments builds has exactly the parsed enchantments as keys, and
      each key carries the level of the last entry that names it. */
  lemma EnchantmentsLastWins(h: Host, section: Section, table: SectionNames)
    requires IsSet(section, table.enchantments)
    requires EnchantmentsOf(h, section, table).Success?
    ensures var entries := GetStringList(section, table.enchantments);
      var ps := ParseAll(EntryParser(h), entries).value;
      var m := EnchantmentsOf(h, section, table).value;
      && |ps| == |entries|
      && (forall i :: 0 <= i < |entries| ==> DeserializeEnchantment(h, entries[i]) == Success(ps[i]))
      && m.Keys == Named(ps)
      && forall i :: 0 <= i < |ps| && IsLast(ps, i) ==> m[ps[i].enchantment] == ps[i].level
  {
    var entries := GetStringList(section, table.enchantments);
    var ps := ParseAll(EntryParser(h), entries).value;
    assert forall i :: 0 <= i < |entries| ==> EntryParser(h)(entries[i]) == Success(ps[i]);
    CollectLastWins(ps);
  }

  /** One entry that does not parse makes the whole call fail, with the error of the first
      entry that does not parse. */
  lemma EnchantmentsFailFast(h: Host, section: Section, table: SectionNames, k: nat)
    requires IsSet(section, table.enchantments)
    requires k < |GetStringList(section, table.enchantments)|
    requires DeserializeEnchantment(h, GetStringList(section, table.enchantments)[k]).Failure?
    ensures var entries := GetStringList(section, table.enchantments);
      exists j :: 0 <= j <= k
        && DeserializeEnchantment(h, entries[j]).Failure?
        && EnchantmentsOf(h, section, table) == Failure(DeserializeEnchantment(h, entries[j]).error)
        && forall i :: 0 <= i < j ==> DeserializeEnchantment(h, entries[i]).Success?
  {
    var entries := GetStringList(section, table.enchantments);
    assert EntryParser(h)(entries[k]).Failure?;
    var parsed := ParseAll(EntryParser(h), entries);
    var j :| 0 <= j < |entries| && EntryParser(h)(entries[j]) == Failure(parsed.error)
             && forall i :: 0 <= i < j ==> EntryParser(h)(entries[i]).Success?;
    assert forall i :: 0 <= i < j ==> DeserializeEnchantment(h, entries[i]).Success?;
    assert j <= k;
  }

  /** Putting one more entry into the collected map. */
  lemma CollectAppend(ps: seq<EnchantmentLevel>, p: EnchantmentLevel)
    ensures Collect(ps + [p]) == Collect(ps)[p.enchantment := p.level]
  {
    assert (ps + [p])[..|ps|] == ps;
  }

  /** Entries that each parse to the corresponding value parse, together, to all the values. */
  lemma ParseAllSucceeds<T>(parse: string -> Result<T, Error>, entries: seq<string>, values: seq<T>)
    requires |entries| == |values|
    requires forall i :: 0 <= i < |entries| ==> parse(entries[i]) == Success(values[i])
    ensures ParseAll(parse, entries) == Success(values)
  {
    assert forall i :: 0 <= i < |entries| ==> parse(entries[i]).Success?;
    var parsed := ParseAll(parse, entries);
    assert parsed.Success? && |parsed.value| == |values|;
    forall i | 0 <= i < |values| ensures parsed.value[i] == values[i] {
      assert parse(entries[i]) == Success(parsed.value[i]);
    }
    assert parsed.value == values;
  }

  /** A failure within the first n entries is the failure of the whole list. */
  lemma {:induction false} ParseAllPrefixFailure<T>(parse: string -> Result<T, Error>, entries: seq<string>, n: nat)
    requires n <= |entries|
    requires ParseAll(parse, entries[..n]).Failure?
    ensures ParseAll(parse, entries) == ParseAll(parse, entries[..n])
    decreases |entries| - n
  {
    if n < |entries| {
      var longer := entries[..n + 1];
      assert longer[..|longer| - 1] == entries[..n];
      ParseAllPrefixFailure(parse, entries, n + 1);
    } else {
      assert entries[..n] == entries;
    }
  }

  /** One more entry: its failure is the failure of the whole list, its value extends the
      values of the entries before it. */
  lemma ParseAllStep<T>(parse: string -> Result<T, Error>, entries: seq<string>, i: nat, done: seq<T>)
    requires i < |entries|
    requires ParseAll(parse, entries[..i]) == Success(done)
    ensures parse(entries[i]).Failure? ==> ParseAll(parse, entries) == Failure(parse(entries[i]).error)
    ensures parse(entries[i]).Success? ==> ParseAll(parse, entries[..i + 1]) == Success(done + [parse(entries[i]).value])
  {
    assert entries[..i + 1][..i] == entries[..i];
    if parse(entries[i]).Failure? {
      ParseAllPrefixFailure(parse, entries, i + 1);
    }
  }

  /** deserializeEnchantments(section, table): each entry of the list is parsed and put into a
      fresh map, so a later entry for the same enchantment replaces an earlier one. */
  method DeserializeEnchantments(h: Host, section: Section, table: SectionNames) returns (r: Result<map<Enchantment, int>, Error>)
    ensures r == EnchantmentsOf(h, section, table)
  {
    if !IsSet(section, table.enchantments) {
      return Success(map[]);
    }
    var map_: map<Enchantment, int> := map[];
    var entries := GetStringList(section, table.enchantments);
    ghost var done: seq<EnchantmentLevel> := [];
    for i := 0 to |entries|
      invariant ParseAll(EntryParser(h), entries[..i]) == Success(done)
      invariant map_ == Collect(done)
    {
      var entry := EntryParser(h)(entries[i]);
      ParseAllStep(EntryParser(h), entries, i, done);
      if entry.Failure? {
        return Failure(entry.error);
      }
      CollectAppend(done, entry.value);
      map_ := map_[entry.value.enchantment := entry.value.level];
      done := done + [entry.value];
    }
    assert entries[..|entries|] == entries;
    return Success(map_);
  }

  // ----- The parser against its inverse -----

  /** The `NAME:LEVEL` text of an entry, as a configuration author writes it. */
  function SerializeEnchantment(p: EnchantmentLevel): string
  {
    p.enchantment.name + ":" + IntToString(p.level)
  }

  /** An entry whose text reads back: its name has no ':' and looks up to its enchantment,
      and its level is an int. */
  predicate Serializable(h: Host, p: EnchantmentLevel)
  {
    && ':' !in p.enchantment.name
    && p.enchantment.name in h.enchantmentByName
    && h.enchantmentByName[p.enchantment.name] == p.enchantment
    && IntMin <= p.level <= IntMax
  }

  /** Parsing the text of an entry gives the entry back, also with any number of trailing
      ':' (which String.split discards). */
  lemma TrailingSeparatorsIgnored(h: Host, p: EnchantmentLevel, trailing: nat)
    requires Serializable(h, p)
    ensures DeserializeEnchantment(h, SerializeEnchantment(p) + Repeat(':', trailing)) == Success(p)
  {
    var level := IntToString(p.level);
    IntToStringChars(p.level);
    assert ':' !in level;
    SplitPair(p.enchantment.name, level, trailing, ':');
    assert SerializeEnchantment(p) + Repeat(':', trailing) == p.enchantment.name + [':'] + level + Repeat(':', trailing);
    ParseIntToString(p.level);
  }

  /** Parsing the text of an entry gives the entry back. */
  lemma EnchantmentRoundTrip(h: Host, p: EnchantmentLevel)
    requires Serializable(h, p)
    ensures EntryParser(h)(SerializeEnchantment(p)) == Success(p)
  {
    TrailingSeparatorsIgnored(h, p, 0);
    assert SerializeEnchantment(p) + Repeat(':', 0) == SerializeEnchantment(p);
  }

  /** A name followed by a single ':' and no level splits into one part and is malformed. */
  lemma MissingLevelIsMalformed(h: Host, name: string)
    requires ':' !in name && name != []
    ensures DeserializeEnchantment(h, name + ":") == Failure(MalformedEnchantment(name + ":"))
  {
    SplitTrailingSeparator(name, ':');
  }

  /** The entries' texts parse back to the entries. */
  lemma EnchantmentListRoundTrip(h: Host, ps: seq<EnchantmentLevel>)
    requires forall i :: 0 <= i < |ps| ==> Serializable(h, ps[i])
    ensures ParseAll(EntryParser(h), seq(|ps|, i requires 0 <= i < |ps| => SerializeEnchantment(ps[i]))) == Success(ps)
  {
    var texts := seq(|ps|, i requires 0 <= i < |ps| => SerializeEnchantment(ps[i]));
    forall i | 0 <= i < |ps|
      ensures EntryParser(h)(texts[i]) == Success(ps[i])
    {
      EnchantmentRoundTrip(h, ps[i]);
    }
    ParseAllSucceeds(EntryParser(h), texts, ps);
  }

  /** Collecting any listing of a map's entries gives the map back. */
  lemma CollectOfListing(ps: seq<EnchantmentLevel>, m: map<Enchantment, int>)
    requires Named(ps) == m.Keys
    requires forall i :: 0 <= i < |ps| ==> m[ps[i].enchantment] == ps[i].level
    ensures Collect(ps) == m
  {
    var collected := Collect(ps);
    CollectLastWins(ps);
    forall e | e in m.Keys ensures collected[e] == m[e] {
      LastEntryExists(ps, e);
    }
  }

  /** Writing an enchantment map as a list of `NAME:LEVEL` entries, in any order, and reading
      the section back yields the same map. */
  lemma EnchantmentMapRoundTrip(h: Host, section: Section, table: SectionNames, m: map<Enchantment, int>, ps: seq<EnchantmentLevel>)
    requires forall i :: 0 <= i < |ps| ==> Serializable(h, ps[i])
    requires Named(ps) == m.Keys
    requires forall i :: 0 <= i < |ps| ==> m[ps[i].enchantment] == ps[i].level
    requires table.enchantments in section
    requires section[table.enchantments] == StringListValue(seq(|ps|, i requires 0 <= i < |ps| => SerializeEnchantment(ps[i])))
    ensures EnchantmentsOf(h, section, table) == Success(m)
  {
    EnchantmentListRoundTrip(h, ps);
    CollectOfListing(ps, m);
  }

  // ===== Enchantments on the item =====

  /** applyEnchantmentsToItemStack(item, enchantments): an enchanted book receives the entries
      as stored enchantments (when it has metadata), any other item as enchantments; an empty
      map changes nothing. */
  method ApplyEnchantmentsToItemStack(h: Host, item: ItemStack, enchantments: map<Enchantment, int>)
    modifies item
    ensures item.material == old(item.material) && item.amount == old(item.amount)
    ensures item.durability == old(item.durability)
    ensures enchantments == map[] || old(item.meta).None? ==> item.meta == old(item.meta)
    ensures old(item.meta).Some? && h.enchantedBook == Some(item.material) ==>
      item.meta == Some(old(item.meta).value.(storedEnchants := old(item.meta).value.storedEnchants + enchantments))
    ensures old(item.meta).Some? && h.enchantedBook != Some(item.material) ==>
      item.meta == Some(old(item.meta).value.(enchants := old(item.meta).value.enchants + enchantments))
  {
    if enchantments == map[] {
      assert old(item.meta).Some? ==> old(item.meta).value.enchants + enchantments == old(item.meta).value.enchants;
      assert old(item.meta).Some? ==> old(item.meta).value.storedEnchants + enchantments == old(item.meta).value.storedEnchants;
      return;
    }
    if h.enchantedBook == Some(item.material) {
      var meta := item.meta;
      if meta.None? {
        return;
      }
      var stored := meta.value.storedEnchants;
      var rest := enchantments.Keys;
      while rest != {}
        invariant rest <= enchantments.Keys
        invariant stored == meta.value.storedEnchants + map e | e in enchantments.Keys - rest :: enchantments[e]
        decreases rest
      {
        var e :| e in rest;
        stored := stored[e := enchantments[e]];
        rest := rest - {e};
      }
      assert (map e | e in enchantments.Keys - {} :: enchantments[e]) == enchantments;
      item.meta := Some(meta.value.(storedEnchants := stored));
    } else {
      item.AddUnsafeEnchantments(enchantments);
    }
  }

  // ===== Item flags =====

  /** The k-th name cannot be stored: ItemFlag.valueOf rejects it, or the array is full. */
  predicate FlagRejected(h: Host, names: seq<string>, k: int)
    requires 0 <= k < |names|
  {
    FlagValueOf(h, names[k]).None? || k >= |h.itemFlags|
  }

  /** deserializeItemFlags(section, table): an array with one slot per ItemFlag constant. No
      names leave every slot null; a "*" anywhere gives every constant in order; otherwise the
      named flags fill the first slots in list order. An unknown name, or a name for which no
      slot is left, fails with that name. */
  method DeserializeItemFlags(h: Host, section: Section, table: SectionNames) returns (r: Result<array<Option<ItemFlag>>, Error>)
    ensures r.Success? ==> r.value.Length == |h.itemFlags|
    ensures GetStringList(section, table.itemFlags) == [] ==>
      r.Success? && forall i :: 0 <= i < r.value.Length ==> r.value[i] == None
    ensures "*" in GetStringList(section, table.itemFlags) ==>
      r.Success? && forall i :: 0 <= i < r.value.Length ==> r.value[i] == Some(h.itemFlags[i])
    ensures var names := GetStringList(section, table.itemFlags);
      names != [] && "*" !in names ==>
        (r.Success? <==> |names| <= |h.itemFlags| && forall k :: 0 <= k < |names| ==> FlagValueOf(h, names[k]).Some?)
    ensures var names := GetStringList(section, table.itemFlags);
      names != [] && "*" !in names && r.Success? ==>
        forall i :: 0 <= i < r.value.Length ==> r.value[i] == if i < |names| then Some(ItemFlag(names[i])) else None
    ensures var names := GetStringList(section, table.itemFlags);
      r.Failure? ==> exists k :: 0 <= k < |names| && FlagRejected(h, names, k) && r.error == UnknownItemFlag(names[k])
                                 && forall j :: 0 <= j < k ==> !FlagRejected(h, names, j)
  {
    var itemFlags := new Option<ItemFlag>[|h.itemFlags|](_ => None);
    var names := GetStringList(section, table.itemFlags);
    if names == [] {
      return Success(itemFlags);
    }
    if "*" in names {
      var values := new Option<ItemFlag>[|h.itemFlags|](i => if 0 <= i < |h.itemFlags| then Some(h.itemFlags[i]) else None);
      return Success(values);
    }
    var index := 0;
    for k := 0 to |names|
      invariant index == k <= itemFlags.Length
      invariant forall j :: 0 <= j < k ==> !FlagRejected(h, names, j)
      invariant forall i :: 0 <= i < itemFlags.Length ==> itemFlags[i] == if i < k then Some(ItemFlag(names[i])) else None
    {
      var flag := FlagValueOf(h, names[k]);
      if flag.None? || index >= itemFlags.Length {
        // valueOf threw, or the store ran past the array: both are rethrown as one error
        return Failure(UnknownItemFlag(names[k]));
      }
      itemFlags[index] := flag;
      index := index + 1;
    }
    assert forall k :: 0 <= k < |names| ==> FlagValueOf(h, names[k]).Some? by {
      forall k | 0 <= k < |names| ensures FlagValueOf(h, names[k]).Some? {
        assert !FlagRejected(h, names, k);
      }
    }
    return Success(itemFlags);
  }

  /** The flags in the non-null slots. */
  function Present(slots: seq<Option<ItemFlag>>): set<ItemFlag>
  {
    if slots == [] then {}
    else Present(slots[..|slots| - 1]) + if slots[|slots| - 1].Some? then {slots[|slots| - 1].value} else {}
  }

  lemma {:induction false} PresentMembership(slots: seq<Option<ItemFlag>>, f: ItemFlag)
    ensures f in Present(slots) <==> exists i :: 0 <= i < |slots| && slots[i] == Some(f)
  {
    if slots != [] {
      var n := |slots| - 1;
      PresentMembership(slots[..n], f);
      assert forall i :: 0 <= i < n ==> slots[..n][i] == slots[i];
    }
  }

  /** applyItemFlagsToItemStacks(item, itemFlags): the metadata's flags grow by the non-null
      entries of the array; an empty array changes nothing; an item without metadata fails. */
  method ApplyItemFlagsToItemStacks(item: ItemStack, itemFlags: array<Option<ItemFlag>>) returns (r: Outcome<Error>)
    modifies item
    ensures item.material == old(item.material) && item.amount == old(item.amount)
    ensures item.durability == old(item.durability)
    ensures old(item.meta).None? ==> r == Fail(NullMetadata) && item.meta == old(item.meta)
    ensures old(item.meta).Some? ==>
      && r == Pass
      && item.meta == Some(old(item.meta).value.(flags := old(item.meta).value.flags + Present(itemFlags[..])))
    ensures itemFlags.Length == 0 ==> item.meta == old(item.meta)
  {
    var meta := item.meta;
    if meta.None? {
      return Fail(NullMetadata);
    }
    if itemFlags.Length == 0 {
      assert itemFlags[..] == [];
      assert meta.value.flags + Present(itemFlags[..]) == meta.value.flags;
      return Pass;
    }
    var updated := meta.value;
    for i := 0 to itemFlags.Length
      invariant updated == meta.value.(flags := meta.value.flags + Present(itemFlags[..i]))
    {
      assert itemFlags[..i + 1][..i] == itemFlags[..i];
      if itemFlags[i].None? {
        continue;
      }
      updated := updated.(flags := updated.flags + {itemFlags[i].value});
    }
    assert itemFlags[..itemFlags.Length] == itemFlags[..];
    item.meta := Some(updated);
    return Pass;
  }

  /** The flags that the configured names select: every constant when "*" is among them,
      otherwise the named ones. */
  function NamedFlags(h: Host, names: seq<string>): set<ItemFlag>
  {
    if "*" in names then set i | 0 <= i < |h.itemFlags| :: h.itemFlags[i]
    else set i | 0 <= i < |names| :: ItemFlag(names[i])
  }

  /** deserializeItemFlags succeeds on these names. */
  predicate FlagsAccepted(h: Host, names: seq<string>)
  {
    || names == []
    || "*" in names
    || (|names| <= |h.itemFlags| && forall k :: 0 <= k < |names| ==> FlagValueOf(h, names[k]).Some?)
  }

  /** The array deserializeItemFlags returns holds, in its non-null slots, exactly the
      selected flags. */
  lemma ParsedFlagsPresent(h: Host, names: seq<string>, slots: seq<Option<ItemFlag>>)
    requires |slots| == |h.itemFlags|
    requires names == [] ==> forall i :: 0 <= i < |slots| ==> slots[i] == None
    requires "*" in names ==> forall i :: 0 <= i < |slots| ==> slots[i] == Some(h.itemFlags[i])
    requires names != [] && "*" !in names ==>
      && |names| <= |slots|
      && forall i :: 0 <= i < |slots| ==> slots[i] == if i < |names| then Some(ItemFlag(names[i])) else None
    ensures Present(slots) == NamedFlags(h, names)
  {
    forall f ensures f in Present(slots) <==> f in NamedFlags(h, names) {
      PresentMembership(slots, f);
      if f in NamedFlags(h, names) && names != [] && "*" !in names {
        var i :| 0 <= i < |names| && ItemFlag(names[i]) == f;
        assert slots[i] == Some(f);
      }
    }
  }

  // ===== Colour codes =====

  function ColorName(name: Option<string>, parseColor: string -> string): Option<string>
  {
    match name
    case None => None
    case Some(s) => Some(parseColor(s))
  }

  function ColorLines(lines: seq<string>, parseColor: string -> string): seq<string>
  {
    seq(|lines|, i requires 0 <= i < |lines| => parseColor(lines[i]))
  }

  /** parseColorOfItemStack(item): the display name and every lore line go through the
      colour-code translation; a null item is left alone, an item without metadata fails. */
  method ParseColorOfItemStack(item: ItemStack?, parseColor: string -> string) returns (r: Outcome<Error>)
    modifies item
    ensures item == null ==> r == Pass
    ensures item != null ==> item.material == old(item.material) && item.amount == old(item.amount)
    ensures item != null ==> item.durability == old(item.durability)
    ensures item != null && old(item.meta).None? ==> r == Fail(NullMetadata) && item.meta == old(item.meta)
    ensures item != null && old(item.meta).Some? ==>
      && r == Pass
      && item.meta == Some(old(item.meta).value.(displayName := ColorName(old(item.meta).value.displayName, parseColor),
                                                  lore := ColorLines(old(item.meta).value.lore, parseColor)))
  {
    if item == null {
      return Pass;
    }
    var meta := item.meta;
    if meta.None? {
      return Fail(NullMetadata);
    }
    item.meta := Some(meta.value.(displayName := ColorName(meta.value.displayName, parseColor),
                                  lore := ColorLines(meta.value.lore, parseColor)));
    return Pass;
  }

  // ===== The whole item stack =====

  /** The middle of deserializeItemStack: custom model data and durability are set only
      when their keys are set, unbreakability only when its key is true, and glow adds the
      placeholder enchantment only to an item without enchantments. */
  method ApplyOptionalFields(h: Host, item: ItemStack, section: Section, table: SectionNames)
    requires item.meta.Some?
    modifies item
    ensures item.material == old(item.material) && item.amount == old(item.amount)
    ensures item.durability == if IsSet(section, table.durability) then ToShort(GetInt(section, table.durability, 0)) else old(item.durability)
    ensures item.meta.Some?
    ensures var before, after := old(item.meta).value, item.meta.value;
      && after.displayName == before.displayName && after.lore == before.lore
      && after.storedEnchants == before.storedEnchants && after.flags == before.flags
      && after.customModelData == (if IsSet(section, table.customModelData) then Some(GetInt(section, table.customModelData, 0)) else before.customModelData)
      && after.unbreakable == (before.unbreakable || GetBoolean(section, table.unbreakable))
      && after.enchants == (if GetBoolean(section, table.glow) && before.enchants == map[] then map[h.glowEnchantment := 1] else before.enchants)
  {
    var updated := item.meta.value;
    if IsSet(section, table.customModelData) {
      updated := updated.(customModelData := Some(GetInt(section, table.customModelData, 0)));
    }
    if GetBoolean(section, table.unbreakable) {
      updated := updated.(unbreakable := true);
    }
    if IsSet(section, table.durability) {
      item.durability := ToShort(GetInt(section, table.durability, 0));
    }
    if GetBoolean(section, table.glow) {
      // HIDE_ENCHANTS is added to the copy that getItemFlags hands out, which changes nothing.
      if updated.enchants == map[] {
        updated := updated.(enchants := map[h.glowEnchantment := 1]);
      }
    }
    item.meta := Some(updated);
  }

  /** The item-flag step of deserializeItemStack: the configured flags are parsed and added
      to the item's metadata, or the first unknown name is reported. */
  method ConfigureItemFlags(h: Host, item: ItemStack, section: Section, table: SectionNames) returns (r: Outcome<Error>)
    requires item.meta.Some?
    modifies item
    ensures r == Pass <==> FlagsAccepted(h, GetStringList(section, table.itemFlags))
    ensures r.Fail? ==> r.error.UnknownItemFlag?
    ensures item.material == old(item.material) && item.amount == old(item.amount)
    ensures item.durability == old(item.durability)
    ensures r == Pass ==>
      item.meta == Some(old(item.meta).value.(flags := old(item.meta).value.flags + NamedFlags(h, GetStringList(section, table.itemFlags))))
  {
    var itemFlags := DeserializeItemFlags(h, section, table);
    if itemFlags.Failure? {
      return Fail(itemFlags.error);
    }
    ParsedFlagsPresent(h, GetStringList(section, table.itemFlags), itemFlags.value[..]);
    r := ApplyItemFlagsToItemStacks(item, itemFlags.value);
  }

  /** deserializeItemStack succeeds on this section. */
  predicate Assembles(h: Host, section: Section, table: SectionNames)
  {
    && DeserializeMaterial(h, section, table).Success?
    && DeserializeMaterial(h, section, table).value.meta.Some?
    && EnchantmentsOf(h, section, table).Success?
    && FlagsAccepted(h, GetStringList(section, table.itemFlags))
  }

  /** The enchantments an item ends with: an enchanted book keeps its own and stores the
      configured ones, any other item carries the configured ones too; glow then adds the
      placeholder enchantment only when there are none. */
  function FinalEnchants(h: Host, material: Material, base: ItemMeta, enchantments: map<Enchantment, int>, glow: bool): map<Enchantment, int>
  {
    var enchants := if h.enchantedBook == Some(material) then base.enchants else base.enchants + enchantments;
    if glow && enchants == map[] then map[h.glowEnchantment := 1] else enchants
  }

  /** Everything deserializeItemStack does after the material is resolved, on an item that
      has metadata. */
  method ConfigureItem(h: Host, item: ItemStack, section: Section, table: SectionNames, parseColor: string -> string)
    returns (r: Outcome<Error>)
    requires item.meta.Some?
    modifies item
    ensures EnchantmentsOf(h, section, table).Failure? ==> r == Fail(EnchantmentsOf(h, section, table).error)
    ensures EnchantmentsOf(h, section, table).Success? ==>
      (r == Pass <==> FlagsAccepted(h, GetStringList(section, table.itemFlags)))
    ensures r.Fail? && EnchantmentsOf(h, section, table).Success? ==> r.error.UnknownItemFlag?
    ensures r == Pass ==>
      && item.material == old(item.material)
      && item.amount == GetInt(section, table.amount, 1)
      && item.durability == (if IsSet(section, table.durability) then ToShort(GetInt(section, table.durability, 0)) else old(item.durability))
      && item.meta.Some?
    ensures r == Pass ==>
      var base, meta := old(item.meta).value, item.meta.value;
      && meta.displayName == ColorName(GetString(section, table.displayName), parseColor)
      && meta.lore == ColorLines(GetStringList(section, table.lore), parseColor)
      && meta.customModelData == (if IsSet(section, table.customModelData) then Some(GetInt(section, table.customModelData, 0)) else base.customModelData)
      && meta.unbreakable == (base.unbreakable || GetBoolean(section, table.unbreakable))
      && meta.flags == base.flags + NamedFlags(h, GetStringList(section, table.itemFlags))
    ensures r == Pass ==>
      var base, meta := old(item.meta).value, item.meta.value;
      var enchantments := EnchantmentsOf(h, section, table).value;
      && meta.storedEnchants == (if h.enchantedBook == Some(old(item.material)) then base.storedEnchants + enchantments else base.storedEnchants)
      && meta.enchants == FinalEnchants(h, old(item.material), base, enchantments, GetBoolean(section, table.glow))
  {
    var meta := item.meta;
    item.meta := Some(meta.value.(displayName := GetString(section, table.displayName),
                                  lore := GetStringList(section, table.lore)));
    var colored := ParseColorOfItemStack(item, parseColor);
    var enchantments := DeserializeEnchantments(h, section, table);
    if enchantments.Failure? {
      return Fail(enchantments.error);
    }
    ApplyEnchantmentsToItemStack(h, item, enchantments.value);
    ApplyOptionalFields(h, item, section, table);
    r := ConfigureItemFlags(h, item, section, table);
    if r.Fail? {
      return;
    }
    item.amount := GetInt(section, table.amount, 1);
    return Pass;
  }

  /** deserializeItemStack(section, table): resolves the material, then sets display name and
      lore (colour-translated), enchantments, custom model data, unbreakability, durability,
      the glow marker, item flags and amount. The first failure ends the call. */
  method DeserializeItemStack(h: Host, section: Section, table: SectionNames, parseColor: string -> string)
    returns (r: Result<ItemStack, Error>)
    ensures r.Success? <==> Assembles(h, section, table)
    // A missing or unknown material fails before any other key is read.
    ensures DeserializeMaterial(h, section, table).Failure? ==> r == Failure(DeserializeMaterial(h, section, table).error)
    ensures var raw := DeserializeMaterial(h, section, table);
      raw.Success? && raw.value.meta.None? ==> r == Failure(NullMetadata)
    ensures var raw := DeserializeMaterial(h, section, table);
      raw.Success? && raw.value.meta.Some? && EnchantmentsOf(h, section, table).Failure? ==>
        r == Failure(EnchantmentsOf(h, section, table).error)
    ensures var raw := DeserializeMaterial(h, section, table);
      raw.Success? && raw.value.meta.Some? && EnchantmentsOf(h, section, table).Success? && r.Failure? ==>
        r.error.UnknownItemFlag?
    ensures r.Success? ==> fresh(r.value) && r.value.meta.Some?
    ensures r.Success? ==>
      var raw := DeserializeMaterial(h, section, table).value;
      var item := r.value;
      // The material is the resolved one; the amount is the configured number, else 1.
      && item.material == raw.material
      && item.amount == GetInt(section, table.amount, 1)
      // Durability changes only when its key is set, to the number cast to a short.
      && item.durability == (if IsSet(section, table.durability) then ToShort(GetInt(section, table.durability, 0)) else raw.durability)
    ensures r.Success? ==>
      var base := DeserializeMaterial(h, section, table).value.meta.value;
      var meta := r.value.meta.value;
      && meta.displayName == ColorName(GetString(section, table.displayName), parseColor)
      && meta.lore == ColorLines(GetStringList(section, table.lore), parseColor)
      // Custom model data changes only when its key is set.
      && meta.customModelData == (if IsSet(section, table.customModelData) then Some(GetInt(section, table.customModelData, 0)) else base.customModelData)
      && meta.unbreakable == (base.unbreakable || GetBoolean(section, table.unbreakable))
      && meta.flags == base.flags + NamedFlags(h, GetStringList(section, table.itemFlags))
    ensures r.Success? ==>
      var raw := DeserializeMaterial(h, section, table).value;
      var base := raw.meta.value;
      var meta := r.value.meta.value;
      var enchantments := EnchantmentsOf(h, section, table).value;
      // An enchanted book stores the enchantments; any other item carries them.
      && meta.storedEnchants == (if h.enchantedBook == Some(raw.material) then base.storedEnchants + enchantments else base.storedEnchants)
      && meta.enchants == FinalEnchants(h, raw.material, base, enchantments, GetBoolean(section, table.glow))
  {
    var raw := DeserializeMaterial(h, section, table);
    if raw.Failure? {
      return Failure(raw.error);
    }
    var item := new ItemStack(raw.value);
    if item.meta.None? {
      return Failure(NullMetadata);
    }
    var configured := ConfigureItem(h, item, section, table, parseColor);
    if configured.Fail? {
      return Failure(configured.error);
    }
    return Success(item);
  }
}
