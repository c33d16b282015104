/** How `Main` / `GenerateCode` read `protocol.json` into the two nested
    dictionaries `PacketMappings` (namespace -> direction -> id -> packet
    name) and `Packets` (namespace -> direction -> packet name -> field name
    -> type tag), together with `ParseNamespace` and `ParsePackets`. These
    functions are the specification that the loops of the `Generator` class
    are proved against. */
module Schema {
  import opened Results
  import opened AssocList
  import opened JsonTree

  type Fields = AList<string>            // field name -> type tag
  type PacketTable = AList<Fields>       // packet name -> fields
  type IdTable = AList<string>           // packet id -> packet name

  /** What `ParsePackets` adds under one (namespace, direction). */
  datatype DirTables = DirTables(mappings: IdTable, packets: PacketTable)

  /** The two dictionaries filled by the root loop. */
  datatype Model = Model(mappings: AList<AList<IdTable>>, packets: AList<AList<PacketTable>>)

  const Client := "Client"
  const Server := "Server"

  /** `Dictionary.Add`: throws on a key already present. */
  function Add<V>(a: AList<V>, k: string, v: V): Result<AList<V>, SchemaError>
  {
    if k in Keys(a) then Failure(DuplicateKey(k)) else Ok(a + [(k, v)])
  }

  /** Successive `Dictionary.Add` calls, in order. */
  function AddAll<V>(a: AList<V>, kvs: AList<V>): Result<AList<V>, SchemaError>
    decreases |kvs|
  {
    if kvs == [] then Ok(a)
    else
      var a' :- Add(a, kvs[0].0, kvs[0].1);
      AddAll(a', kvs[1..])
  }

  /** Adding entries one by one to a dictionary succeeds exactly when all
      keys are distinct, and the dictionary then enumerates them in the
      order they were added. */
  lemma {:induction false} AddAllDistinct<V>(a: AList<V>, kvs: AList<V>)
    requires Distinct(Keys(a))
    ensures AddAll(a, kvs).Ok? <==> Distinct(Keys(a + kvs))
    ensures AddAll(a, kvs).Ok? ==> AddAll(a, kvs).value == a + kvs
    decreases |kvs|
  {
    KeysAppend(a, kvs);
    if kvs != [] {
      var k := kvs[0].0;
      var a1 := a + [kvs[0]];
      assert a + kvs == a1 + kvs[1..];
      KeysAppend(a1, kvs[1..]);
      if k in Keys(a) {
        var i :| 0 <= i < |a| && Keys(a)[i] == k;
        assert Keys(a + kvs)[i] == Keys(a + kvs)[|a|];
      } else {
        assert Distinct(Keys(a1));
        AddAllDistinct(a1, kvs[1..]);
      }
    }
  }

  /** Whatever the keys, a successful run of `Add` calls appends in order. */
  lemma {:induction false} AddAllAppends<V>(a: AList<V>, kvs: AList<V>)
    requires AddAll(a, kvs).Ok?
    ensures AddAll(a, kvs).value == a + kvs
    decreases |kvs|
  {
    if kvs != [] {
      var a1 := a + [kvs[0]];
      AddAllAppends(a1, kvs[1..]);
      assert a + kvs == a1 + kvs[1..];
    }
  }

  /** One field descriptor, taken by position: the first member's value is
      the field name, the second member's value the type tag (not checked). */
  function FieldOf(item: Json): Result<(string, string), SchemaError>
  {
    match item
    case JObj(props) =>
      if |props| < 2 then Failure(IndexOutOfRange)
      else Ok((Text(props[0].1), Text(props[1].1)))
    case JArr(items) => if items == [] then Failure(IndexOutOfRange) else Failure(InvalidCast)
    case JStr(_) => Failure(IndexOutOfRange)
  }

  /** The inner `foreach (var packettype in value.Children())` loop. */
  function ParseFields(items: seq<Json>, acc: Fields): Result<Fields, SchemaError>
    decreases |items|
  {
    if items == [] then Ok(acc)
    else
      var field :- FieldOf(items[0]);
      var acc' :- Add(acc, field.0, field.1);
      ParseFields(items[1..], acc')
  }

  predicate WellShaped(item: Json)
  {
    item.JObj? && |item.props| >= 2
  }

  /** The fields a list of well-shaped descriptors names, in order. */
  function FieldList(items: seq<Json>): (fs: Fields)
    requires forall i :: 0 <= i < |items| ==> WellShaped(items[i])
    ensures |fs| == |items|
  {
    seq(|items|, i requires 0 <= i < |items| && WellShaped(items[i]) => (Text(items[i].props[0].1), Text(items[i].props[1].1)))
  }

  /** A packet's fields are read positionally from its descriptors, keep
      their order and their type tags verbatim, and parsing fails exactly
      when a descriptor is malformed or a field name repeats. */
  lemma {:induction false} ParseFieldsSpec(items: seq<Json>, acc: Fields)
    requires Distinct(Keys(acc))
    ensures ParseFields(items, acc).Ok? <==>
              (forall i :: 0 <= i < |items| ==> WellShaped(items[i])) && Distinct(Keys(acc + FieldList(items)))
    ensures ParseFields(items, acc).Ok? ==> ParseFields(items, acc).value == acc + FieldList(items)
    decreases |items|
  {
    if items != [] {
      var f := FieldOf(items[0]);
      if f.Ok? {
        assert WellShaped(items[0]);
        var k := f.value.0;
        var acc1 := acc + [f.value];
        if k in Keys(acc) {
          var i :| 0 <= i < |acc| && Keys(acc)[i] == k;
          if forall i :: 0 <= i < |items| ==> WellShaped(items[i]) {
            assert Keys(acc + FieldList(items))[i] == Keys(acc + FieldList(items))[|acc|];
          }
        } else {
          assert Distinct(Keys(acc1));
          ParseFieldsSpec(items[1..], acc1);
          if forall i :: 0 <= i < |items| ==> WellShaped(items[i]) {
            assert acc + FieldList(items) == acc1 + FieldList(items[1..]);
          } else {
            assert !(forall i :: 0 <= i < |items[1..]| ==> WellShaped(items[1..][i]));
          }
        }
      } else {
        assert !WellShaped(items[0]);
      }
    }
  }

  /** The `packet` entry's id table: `((JArray)value)[0]["type"]` cast to an
      array, then `[1]["mappings"]`, whose members are the (id, name) pairs. */
  function MappingEntries(value: Json): Result<AList<Json>, SchemaError>
  {
    var mappart :- At(value, 0);
    var typ :- Member(mappart, "type");
    if typ.None? then Failure(NullReference)
    else
      var second :- At(typ.value, 1);
      var mappings :- Member(second, "mappings");
      if mappings.None? then Failure(NullReference)
      else PropertyChildren(mappings.value)
  }

  /** Each mapping member as (id, `Value.ToString()`). */
  function TextValues(entries: AList<Json>): (r: IdTable)
    ensures |r| == |entries|
    ensures forall i :: 0 <= i < |entries| ==> r[i] == (entries[i].0, Text(entries[i].1))
  {
    seq(|entries|, i requires 0 <= i < |entries| => (entries[i].0, Text(entries[i].1)))
  }

  /** One iteration of the `foreach (var packet in types.Children())` loop. */
  function ParseEntry(name: string, v: Json, acc: DirTables): Result<DirTables, SchemaError>
  {
    var value :- At(v, 1);
    if name == "packet" then
      var entries :- MappingEntries(value);
      var m :- AddAll(acc.mappings, TextValues(entries));
      Ok(acc.(mappings := m))
    else
      var _ :- Add(acc.packets, name, []);
      var items :- ItemChildren(value);
      var fields :- ParseFields(items, []);
      Ok(acc.(packets := acc.packets + [(name, fields)]))
  }

  /** The whole `types` loop of `ParsePackets`. */
  function ParseEntries(entries: AList<Json>, acc: DirTables): Result<DirTables, SchemaError>
    decreases |entries|
  {
    if entries == [] then Ok(acc)
    else
      var acc' :- ParseEntry(entries[0].0, entries[0].1, acc);
      ParseEntries(entries[1..], acc')
  }

  /** `ParsePackets(token)`; `None` is a null token (a missing direction). */
  function ParseDirection(token: Option<Json>): Result<DirTables, SchemaError>
  {
    if token.None? then Failure(NullReference)
    else
      var types :- Member(token.value, "types");
      if types.None? then Failure(NullReference)
      else
        var entries :- PropertyChildren(types.value);
        ParseEntries(entries, DirTables([], []))
  }

  /** `ParseNamespace(token)`: both members are looked up first, then
      "Client" is parsed from `toClient` and "Server" from `toServer`. */
  function ParseNamespace(token: Json): Result<(DirTables, DirTables), SchemaError>
  {
    var toClient :- Member(token, "toClient");
    var toServer :- Member(token, "toServer");
    var client :- ParseDirection(toClient);
    var server :- ParseDirection(toServer);
    Ok((client, server))
  }

  /** The root `types` property is only scanned for log lines; the scan
      throws only when the value is an array holding an array whose first
      element reads "native", because that element is then cast to a
      property. */
  predicate TypesScanFails(value: Json)
  {
    value.JArr? &&
    exists i :: 0 <= i < |value.items| && value.items[i].JArr? && |value.items[i].items| > 0 &&
                Text(value.items[i].items[0]) == "native"
  }

  /** The namespace entry that the root loop adds for one namespace. */
  function WithNamespace(m: Model, name: string, client: DirTables, server: DirTables): Model
  {
    Model(m.mappings + [(name, [(Client, client.mappings), (Server, server.mappings)])],
          m.packets + [(name, [(Client, client.packets), (Server, server.packets)])])
  }

  /** The root loop (Program.cs `Main`, `GenerateCode`) from `acc` on. */
  function ParseRoot(root: AList<Json>, acc: Model): Result<Model, SchemaError>
    decreases |root|
  {
    if root == [] then Ok(acc)
    else
      var name := root[0].0;
      if name == "types" then
        if TypesScanFails(root[0].1) then Failure(InvalidCast) else ParseRoot(root[1..], acc)
      else
        var _ :- Add(acc.mappings, name, []);
        var _ :- Add(acc.packets, name, []);
        var dirs :- ParseNamespace(root[0].1);
        ParseRoot(root[1..], WithNamespace(acc, name, dirs.0, dirs.1))
  }

  /** The model parsed from a whole schema. */
  function Parse(root: AList<Json>): Result<Model, SchemaError>
  {
    ParseRoot(root, Model([], []))
  }

  /** Names of the `types` entries that describe packets, in document order. */
  function PacketNames(entries: AList<Json>): seq<string>
  {
    if entries == [] then []
    else (if entries[0].0 == "packet" then [] else [entries[0].0]) + PacketNames(entries[1..])
  }

  /** The (id, name) pairs one `types` entry contributes. */
  function EntryMappings(name: string, v: Json): IdTable
  {
    if name != "packet" then []
    else match At(v, 1)
      case Failure(_) => []
      case Ok(value) =>
        match MappingEntries(value)
        case Failure(_) => []
        case Ok(es) => TextValues(es)
  }

  /** The (id, name) pairs of the `packet` entries, in document order. */
  function MappingPairs(entries: AList<Json>): IdTable
  {
    if entries == [] then []
    else EntryMappings(entries[0].0, entries[0].1) + MappingPairs(entries[1..])
  }

  /** A `packet` entry appends its (id, name) pairs in document order and
      leaves the packets alone. */
  lemma ParseEntryMapping(v: Json, acc: DirTables)
    requires Distinct(Keys(acc.mappings))
    requires ParseEntry("packet", v, acc).Ok?
    ensures v.JArr? && |v.items| >= 2 && MappingEntries(v.items[1]).Ok?
    ensures ParseEntry("packet", v, acc).value ==
              acc.(mappings := acc.mappings + TextValues(MappingEntries(v.items[1]).value))
  {
    var es := MappingEntries(v.items[1]).value;
    AddAllDistinct(acc.mappings, TextValues(es));
  }

  /** Any other entry becomes one packet, added last, whose fields are read
      positionally from the descriptors in `value[1]`; the ids are left alone. */
  lemma ParseEntryPacket(name: string, v: Json, acc: DirTables)
    requires name != "packet"
    requires ParseEntry(name, v, acc).Ok?
    ensures v.JArr? && |v.items| >= 2 && ItemChildren(v.items[1]).Ok?
    ensures forall i :: 0 <= i < |ItemChildren(v.items[1]).value| ==> WellShaped(ItemChildren(v.items[1]).value[i])
    ensures name !in Keys(acc.packets)
    ensures ParseEntry(name, v, acc).value ==
              acc.(packets := acc.packets + [(name, FieldList(ItemChildren(v.items[1]).value))])
  {
    var items := ItemChildren(v.items[1]).value;
    ParseFieldsSpec(items, []);
    assert [] + FieldList(items) == FieldList(items);
  }

  /** What one entry adds to the direction's tables. */
  function EntryPackets(name: string): seq<string>
  {
    if name == "packet" then [] else [name]
  }

  lemma ParseEntryStep(name: string, v: Json, acc: DirTables)
    requires Distinct(Keys(acc.mappings)) && Distinct(Keys(acc.packets))
    requires ParseEntry(name, v, acc).Ok?
    ensures Keys(ParseEntry(name, v, acc).value.packets) == Keys(acc.packets) + EntryPackets(name)
    ensures ParseEntry(name, v, acc).value.mappings == acc.mappings + EntryMappings(name, v)
    ensures Distinct(Keys(ParseEntry(name, v, acc).value.packets))
    ensures Distinct(Keys(ParseEntry(name, v, acc).value.mappings))
  {
    var acc1 := ParseEntry(name, v, acc).value;
    if name == "packet" {
      ParseEntryMapping(v, acc);
      AddAllDistinct(acc.mappings, TextValues(MappingEntries(v.items[1]).value));
    } else {
      ParseEntryPacket(name, v, acc);
      KeysAppend(acc.packets, [(name, FieldList(ItemChildren(v.items[1]).value))]);
    }
  }

  /** What one entry does to the id table, whatever the tables hold. */
  lemma ParseEntryMappingsStep(name: string, v: Json, acc: DirTables)
    requires ParseEntry(name, v, acc).Ok?
    ensures ParseEntry(name, v, acc).value.mappings == acc.mappings + EntryMappings(name, v)
  {
    if name == "packet" {
      AddAllAppends(acc.mappings, TextValues(MappingEntries(v.items[1]).value));
    }
  }

  /** One turn of the entries loop. */
  lemma ParseEntriesCons(entries: AList<Json>, acc: DirTables)
    requires entries != [] && ParseEntries(entries, acc).Ok?
    ensures ParseEntry(entries[0].0, entries[0].1, acc).Ok?
    ensures ParseEntries(entries, acc) == ParseEntries(entries[1..], ParseEntry(entries[0].0, entries[0].1, acc).value)
  {
  }

  /** A direction lists its packets in document order under distinct names,
      and never maps an id twice. */
  lemma {:induction false} ParseEntriesPackets(entries: AList<Json>, acc: DirTables)
    requires Distinct(Keys(acc.mappings)) && Distinct(Keys(acc.packets))
    requires ParseEntries(entries, acc).Ok?
    ensures Keys(ParseEntries(entries, acc).value.packets) == Keys(acc.packets) + PacketNames(entries)
    ensures Distinct(Keys(ParseEntries(entries, acc).value.packets))
    ensures Distinct(Keys(ParseEntries(entries, acc).value.mappings))
    decreases |entries|
  {
    if entries == [] {
      assert Keys(acc.packets) + [] == Keys(acc.packets);
    } else {
      var (name, v) := entries[0];
      var acc1 := ParseEntry(name, v, acc).value;
      ParseEntriesCons(entries, acc);
      ParseEntryStep(name, v, acc);
      ParseEntriesPackets(entries[1..], acc1);
      var before, here, after := Keys(acc.packets), EntryPackets(name), PacketNames(entries[1..]);
      assert PacketNames(entries) == here + after;
      assert (before + here) + after == before + (here + after);
    }
  }

  /** A direction's id table holds the `packet` entries' (id, name) pairs in
      document order, each id once. */
  lemma {:induction false} ParseEntriesMappings(entries: AList<Json>, acc: DirTables)
    requires ParseEntries(entries, acc).Ok?
    ensures ParseEntries(entries, acc).value.mappings == acc.mappings + MappingPairs(entries)
    decreases |entries|
  {
    if entries != [] {
      var name, v := entries[0].0, entries[0].1;
      ParseEntriesCons(entries, acc);
      var acc1 := ParseEntry(name, v, acc).value;
      ParseEntryMappingsStep(name, v, acc);
      ParseEntriesMappings(entries[1..], acc1);
      MappingPairsCons(entries);
      var here, after := EntryMappings(name, v), MappingPairs(entries[1..]);
      assert (acc.mappings + here) + after == acc.mappings + (here + after);
    }
  }

  lemma MappingPairsCons(entries: AList<Json>)
    requires entries != []
    ensures MappingPairs(entries) == EntryMappings(entries[0].0, entries[0].1) + MappingPairs(entries[1..])
  {
  }

  /** The names of the root properties that are namespaces, in document order. */
  function NamespaceNames(root: AList<Json>): seq<string>
  {
    if root == [] then []
    else (if root[0].0 == "types" then [] else [root[0].0]) + NamespaceNames(root[1..])
  }

  /** Both dictionaries have the same namespaces, each with exactly the
      directions "Client" then "Server". */
  predicate Shaped(m: Model)
  {
    && Keys(m.mappings) == Keys(m.packets)
    && Distinct(Keys(m.mappings))
    && (forall i :: 0 <= i < |m.mappings| ==> Keys(m.mappings[i].1) == [Client, Server])
    && (forall i :: 0 <= i < |m.packets| ==> Keys(m.packets[i].1) == [Client, Server])
  }

  lemma WithNamespaceShaped(acc: Model, name: string, client: DirTables, server: DirTables)
    requires Shaped(acc) && name !in Keys(acc.mappings)
    ensures Shaped(WithNamespace(acc, name, client, server))
    ensures Keys(WithNamespace(acc, name, client, server).mappings) == Keys(acc.mappings) + [name]
  {
    var m := WithNamespace(acc, name, client, server);
    KeysAppend(acc.mappings, [(name, [(Client, client.mappings), (Server, server.mappings)])]);
    KeysAppend(acc.packets, [(name, [(Client, client.packets), (Server, server.packets)])]);
    assert Keys(m.mappings[|acc.mappings|].1) == [Client, Server];
    assert Keys(m.packets[|acc.packets|].1) == [Client, Server];
  }

  /** One step of the root loop on a namespace property. */
  lemma ParseRootStep(root: AList<Json>, acc: Model)
    requires root != [] && root[0].0 != "types"
    requires ParseRoot(root, acc).Ok?
    ensures root[0].0 !in Keys(acc.mappings)
    ensures ParseNamespace(root[0].1).Ok?
    ensures ParseRoot(root, acc) ==
              ParseRoot(root[1..], WithNamespace(acc, root[0].0, ParseNamespace(root[0].1).value.0,
                                                 ParseNamespace(root[0].1).value.1))
  {
  }

  /** One step of the root loop on the `types` property. */
  lemma ParseRootSkip(root: AList<Json>, acc: Model)
    requires root != [] && root[0].0 == "types"
    requires ParseRoot(root, acc).Ok?
    ensures ParseRoot(root, acc) == ParseRoot(root[1..], acc)
  {
  }

  lemma WithNamespaceKeys(acc: Model, name: string, client: DirTables, server: DirTables)
    ensures Keys(WithNamespace(acc, name, client, server).mappings) == Keys(acc.mappings) + [name]
  {
    KeysAppend(acc.mappings, [(name, [(Client, client.mappings), (Server, server.mappings)])]);
  }

  /** A root property named `types` adds no namespace; every other adds
      exactly one, in document order. */
  lemma {:induction false} ParseRootNames(root: AList<Json>, acc: Model)
    requires ParseRoot(root, acc).Ok?
    ensures Keys(ParseRoot(root, acc).value.mappings) == Keys(acc.mappings) + NamespaceNames(root)
    decreases |root|
  {
    if root != [] {
      var name := root[0].0;
      var rest := NamespaceNames(root[1..]);
      if name != "types" {
        ParseRootStep(root, acc);
        var dirs := ParseNamespace(root[0].1).value;
        var acc1 := WithNamespace(acc, name, dirs.0, dirs.1);
        WithNamespaceKeys(acc, name, dirs.0, dirs.1);
        ParseRootNames(root[1..], acc1);
        assert NamespaceNames(root) == [name] + rest;
        assert (Keys(acc.mappings) + [name]) + rest == Keys(acc.mappings) + ([name] + rest);
      } else {
        ParseRootSkip(root, acc);
        ParseRootNames(root[1..], acc);
        assert NamespaceNames(root) == rest;
      }
    }
  }

  /** The root loop keeps both dictionaries on the same namespaces, each
      added once, with exactly the directions "Client" then "Server". */
  lemma {:induction false} ParseRootShaped(root: AList<Json>, acc: Model)
    requires Shaped(acc)
    requires ParseRoot(root, acc).Ok?
    ensures Shaped(ParseRoot(root, acc).value)
    decreases |root|
  {
    if root != [] {
      var name := root[0].0;
      if name != "types" {
        ParseRootStep(root, acc);
        var dirs := ParseNamespace(root[0].1).value;
        WithNamespaceShaped(acc, name, dirs.0, dirs.1);
        ParseRootShaped(root[1..], WithNamespace(acc, name, dirs.0, dirs.1));
      } else {
        assert ParseRoot(root, acc) == ParseRoot(root[1..], acc);
        ParseRootShaped(root[1..], acc);
      }
    }
  }

  /** A whole schema: namespaces in document order, never twice. A repeated
      namespace name therefore makes the parse fail (`JObject.Parse` keeps
      one property per name, so it builds no such tree). */
  lemma ParseSpec(root: AList<Json>)
    ensures Parse(root).Ok? ==> Shaped(Parse(root).value) && Keys(Parse(root).value.mappings) == NamespaceNames(root)
    ensures !Distinct(NamespaceNames(root)) ==> Parse(root).Failure?
  {
    if Parse(root).Ok? {
      ParseRootNames(root, Model([], []));
      ParseRootShaped(root, Model([], []));
    }
  }

  /** A namespace parses only if it is an object with both a `toClient`
      and a `toServer` member whose directions parse. */
  lemma ParseNamespaceNeedsBoth(token: Json)
    ensures ParseNamespace(token).Ok? <==>
              && token.JObj?
              && Lookup(token.props, "toClient").Some?
              && Lookup(token.props, "toServer").Some?
              && ParseDirection(Lookup(token.props, "toClient")).Ok?
              && ParseDirection(Lookup(token.props, "toServer")).Ok?
  {
  }
}
