/** The code generator itself: `Generator` (Generator/Generator.cs) and the
    static `Program` (Program.cs), which is the same code with another
    indentation rule and fixed settings. The dictionaries, the output
    buffer and its depth are fields that the methods update in place; every
    method is proved against the specification functions of `Schema` and
    `Emit`. */
module Generation {
  import opened Results
  import opened AssocList
  import opened JsonTree
  import opened Names
  import opened Schema
  import opened Emit

  /** How `GenerateCode` ends: normally, or by the exception of the parse
      or of `FormatName`. */
  datatype Outcome = Done | ParseFailed(error: SchemaError) | FormatFailed

  class Generator {
    const indent: Indent
    const codeName: string
    const minecraftVersion: string
    const outputFolder: string

    /** namespace -> direction -> packet name -> field name -> type tag */
    var packets: AList<AList<PacketTable>>
    /** namespace -> direction -> id -> packet name */
    var packetMappings: AList<AList<IdTable>>
    var currentNamespace: string
    var currentDirection: string

    var out: string
    var tabs: int
    /** The (depth, text) of every `Write` since the last `New`. */
    ghost var written: seq<(int, string)>
    /** Every `File.WriteAllText(path, content)`, in order. */
    var saved: seq<File>

    ghost predicate Valid()
      reads this
    {
      out == FileText(indent, written)
    }

    function Settings(): Config
    {
      Config(indent, codeName, minecraftVersion, outputFolder)
    }

    /** `new Generator(codeName, minecraftVersion, outputPath)`. */
    constructor (codeName: string, minecraftVersion: string, outputPath: string)
      ensures Valid()
      ensures Settings() == Config(FourSpaces, codeName, minecraftVersion, outputPath)
      ensures packets == [] && packetMappings == []
      ensures currentNamespace == "" && currentDirection == ""
      ensures out == "" && tabs == 0 && written == [] && saved == []
    {
      this.indent := FourSpaces;
      this.codeName := codeName;
      this.minecraftVersion := minecraftVersion;
      this.outputFolder := outputPath;
      packets := [];
      packetMappings := [];
      currentNamespace := "";
      currentDirection := "";
      out := "";
      tabs := 0;
      written := [];
      saved := [];
    }

    /** The static state of `Program`, with its initial values. */
    constructor Program()
      ensures Valid()
      ensures Settings() == Config(TabsPlusOne, "Lena", "1.18.2", "out/")
      ensures packets == [] && packetMappings == []
      ensures currentNamespace == "" && currentDirection == ""
      ensures out == "" && tabs == 0 && written == [] && saved == []
    {
      indent := TabsPlusOne;
      codeName := "Lena";
      minecraftVersion := "1.18.2";
      outputFolder := "out/";
      packets := [];
      packetMappings := [];
      currentNamespace := "";
      currentDirection := "";
      out := "";
      tabs := 0;
      written := [];
      saved := [];
    }

    method AddTab()
      modifies this`tabs
      ensures tabs == old(tabs) + 1
    {
      tabs := tabs + 1;
    }

    method RemoveTab()
      modifies this`tabs
      ensures tabs == old(tabs) - 1
    {
      tabs := tabs - 1;
    }

    /** `Write(txt)`: the padding loop, then the text and a newline. */
    method Write(txt: string)
      requires Valid()
      modifies this`out, this`written
      ensures Valid()
      ensures written == old(written) + [(tabs, txt)]
      ensures out == old(out) + Line(indent, tabs, txt)
    {
      var pad := "";
      var i := 0;
      if indent.TabsPlusOne? {
        while i <= tabs
          invariant 0 <= i <= (if tabs + 1 > 0 then tabs + 1 else 0)
          invariant pad == Repeat("\t", i)
        {
          pad := pad + "\t";
          i := i + 1;
        }
      } else {
        while i < tabs
          invariant 0 <= i <= (if tabs > 0 then tabs else 0)
          invariant pad == Repeat("    ", i)
        {
          pad := pad + "    ";
          i := i + 1;
        }
      }
      assert pad == Pad(indent, tabs);
      FileTextAppend(indent, written, [(tabs, txt)]);
      assert FileText(indent, [(tabs, txt)]) == Line(indent, tabs, txt);
      out := out + (pad + txt + "\n");
      written := written + [(tabs, txt)];
    }

    /** `New()`: an empty buffer at depth 0. */
    method New()
      modifies this`out, this`tabs, this`written
      ensures Valid()
      ensures out == "" && tabs == 0 && written == []
    {
      out := "";
      tabs := 0;
      written := [];
    }

    /** `Save(filename)`: the buffer is written to `filename`. */
    method Save(filename: string)
      modifies this`saved
      ensures saved == old(saved) + [File(filename, out)]
    {
      saved := saved + [File(filename, out)];
    }

    /** The calls a `Write*` helper makes, one after the other. */
    method Perform(ops: seq<Op>)
      requires Valid()
      modifies this`out, this`written, this`tabs
      ensures Valid()
      ensures written == old(written) + Run(ops, old(tabs))
      ensures tabs == Depth(ops, old(tabs))
      decreases |ops|
    {
      if ops != [] {
        ghost var t, w0 := tabs, written;
        match ops[0] {
          case WriteOp(text) =>
            Write(text);
            assert Run([ops[0]], t) == [(t, text)] + [];
          case AddTabOp => AddTab();
          case RemoveTabOp => RemoveTab();
        }
        assert [ops[0]][1..] == [];
        assert written == w0 + Run([ops[0]], t) && tabs == Depth([ops[0]], t);
        Perform(ops[1..]);
        assert ops == [ops[0]] + ops[1..];
        RunAppend([ops[0]], ops[1..], t);
      } else {
        assert written == old(written) + [];
      }
    }

    /** `WriteMappingHeader`. */
    method WriteMappingHeader()
      requires Valid()
      modifies this`out, this`written, this`tabs
      ensures Valid()
      ensures written == old(written) + Run(MappingHeader(Settings()), old(tabs))
      ensures tabs == old(tabs) + 3
    {
      Perform(MappingHeader(Settings()));
      MappingHeaderRun(Settings(), old(tabs));
    }

    /** `WriteMappingMiddle`. */
    method WriteMappingMiddle()
      requires Valid()
      modifies this`out, this`written, this`tabs
      ensures Valid()
      ensures written == old(written) + Run(MappingMiddle(), old(tabs))
      ensures tabs == old(tabs)
    {
      Perform(MappingMiddle());
      MappingMiddleRun(old(tabs));
    }

    /** `WriteMappingEnd` and `WritePacketEnd`. */
    method WriteEnd()
      requires Valid()
      modifies this`out, this`written, this`tabs
      ensures Valid()
      ensures written == old(written) + Run(Closing(), old(tabs))
      ensures tabs == old(tabs) - 3
    {
      Perform(Closing());
      ClosingRun(old(tabs));
    }

    /** `WritePacketHeader(ns, dir, packetname)`. */
    method WritePacketHeader(ns: string, dir: string, packetName: string)
      requires Valid()
      modifies this`out, this`written, this`tabs
      ensures Valid()
      ensures written == old(written) + Run(PacketHeader(Settings(), ns, dir, packetName), old(tabs))
      ensures tabs == old(tabs) + 2
    {
      Perform(PacketHeader(Settings(), ns, dir, packetName));
      PacketHeaderRun(Settings(), ns, dir, packetName, old(tabs));
    }

    /** `WritePacketEncode`. */
    method WritePacketEncode()
      requires Valid()
      modifies this`out, this`written, this`tabs
      ensures Valid()
      ensures written == old(written) + Run(PacketEncode(), old(tabs))
      ensures tabs == old(tabs) + 1
    {
      Perform(PacketEncode());
      PacketEncodeRun(old(tabs));
    }

    /** `WritePacketDecode`. */
    method WritePacketDecode()
      requires Valid()
      modifies this`out, this`written, this`tabs
      ensures Valid()
      ensures written == old(written) + Run(PacketDecode(), old(tabs))
      ensures tabs == old(tabs)
    {
      Perform(PacketDecode());
      PacketDecodeRun(old(tabs));
    }
  
    /** The scan of the root `types` property: it only logs, and it throws
        exactly as `TypesScanFails` says. */
    method ScanTypes(value: Json) returns (ok: bool)
      ensures ok == !TypesScanFails(value)
    {
      if value.JArr? {
        var j := 0;
        while j < |value.items|
          invariant 0 <= j <= |value.items|
          invariant forall k :: 0 <= k < j ==>
                      !(value.items[k].JArr? && |value.items[k].items| > 0 && Text(value.items[k].items[0]) == "native")
        {
          var tc := value.items[j];
          if tc.JArr? && |tc.items| > 0 && Text(tc.items[0]) == "native" {
            return false;
          }
          j := j + 1;
        }
      }
      return true;
    }

    /** `ParsePackets(token)`: the tables of the current direction, filled
        entry by entry; `None` is a null token. */
    method ParsePackets(token: Option<Json>) returns (r: Result<DirTables, SchemaError>)
      ensures r == ParseDirection(token)
    {
      if token.None? {
        return Failure(NullReference);
      }
      var types :- Member(token.value, "types");
      if types.None? {
        return Failure(NullReference);
      }
      var entries :- PropertyChildren(types.value);
      var acc := DirTables([], []);
      var i := 0;
      while i < |entries|
        invariant 0 <= i <= |entries|
        invariant ParseEntries(entries[i..], acc) == ParseDirection(token)
      {
        assert entries[i..][0] == entries[i] && entries[i..][1..] == entries[i + 1..];
        var name := entries[i].0;
        var value :- At(entries[i].1, 1);
        if name == "packet" {
          var maps :- MappingEntries(value);
          var kvs := TextValues(maps);
          var m := acc.mappings;
          var j := 0;
          while j < |maps|
            invariant 0 <= j <= |maps|
            invariant AddAll(m, kvs[j..]) == AddAll(acc.mappings, kvs)
          {
            assert kvs[j..][0] == kvs[j] && kvs[j..][1..] == kvs[j + 1..];
            m :- Add(m, maps[j].0, Text(maps[j].1));
            j := j + 1;
          }
          acc := acc.(mappings := m);
        } else {
          var _ :- Add(acc.packets, name, []);
          var items :- ItemChildren(value);
          var fields := [];
          var k := 0;
          while k < |items|
            invariant 0 <= k <= |items|
            invariant ParseFields(items[k..], fields) == ParseFields(items, [])
          {
            assert items[k..][0] == items[k] && items[k..][1..] == items[k + 1..];
            var field :- FieldOf(items[k]);
            fields :- Add(fields, field.0, field.1);
            k := k + 1;
          }
          acc := acc.(packets := acc.packets + [(name, fields)]);
        }
        i := i + 1;
      }
      return Ok(acc);
    }
  
    /** `ParseNamespace(token)`: the current namespace, already added with no
        directions, gets "Client" from `toClient` and then "Server" from
        `toServer`. */
    method ParseNamespace(token: Json) returns (r: Result<(), SchemaError>)
      requires packetMappings != [] && packetMappings[|packetMappings| - 1] == (currentNamespace, [])
      requires packets != [] && packets[|packets| - 1] == (currentNamespace, [])
      modifies this`currentDirection, this`packetMappings, this`packets
      ensures Schema.ParseNamespace(token).Failure? ==> r == Failure(Schema.ParseNamespace(token).error)
      ensures Schema.ParseNamespace(token).Ok? ==>
                var (client, server) := Schema.ParseNamespace(token).value;
                r.Ok? && currentDirection == Server &&
                packetMappings == old(packetMappings)[..|old(packetMappings)| - 1] +
                                  [(currentNamespace, [(Client, client.mappings), (Server, server.mappings)])] &&
                packets == old(packets)[..|old(packets)| - 1] +
                           [(currentNamespace, [(Client, client.packets), (Server, server.packets)])]
    {
      var toClient :- Member(token, "toClient");
      // `token` is an object once the first lookup succeeded, so the second one cannot fail
      var toServer := Member(token, "toServer").value;
      currentDirection := Client;
      var client :- ParsePackets(toClient);
      currentDirection := Server;
      var server :- ParsePackets(toServer);
      var n, p := |packetMappings|, |packets|;
      packetMappings := packetMappings[..n - 1] + [(currentNamespace, [(Client, client.mappings), (Server, server.mappings)])];
      packets := packets[..p - 1] + [(currentNamespace, [(Client, client.packets), (Server, server.packets)])];
      return Ok(());
    }

    /** The root loop of `GenerateCode`: fresh dictionaries, then one
        namespace per property other than `types`. On success the two
        dictionaries hold exactly the parsed model. */
    method Load(root: AList<Json>) returns (r: Result<(), SchemaError>)
      modifies this`currentNamespace, this`currentDirection, this`packetMappings, this`packets
      ensures Parse(root).Failure? ==> r == Failure(Parse(root).error)
      ensures Parse(root).Ok? ==> r.Ok? && Model(packetMappings, packets) == Parse(root).value
    {
      packets := [];
      packetMappings := [];
      var i := 0;
      while i < |root|
        invariant 0 <= i <= |root|
        invariant ParseRoot(root[i..], Model(packetMappings, packets)) == Parse(root)
      {
        assert root[i..][0] == root[i] && root[i..][1..] == root[i + 1..];
        var name := root[i].0;
        if name == "types" {
          var ok := ScanTypes(root[i].1);
          if !ok {
            return Failure(InvalidCast);
          }
        } else {
          ghost var m := Model(packetMappings, packets);
          currentNamespace := name;
          var mappings :- Add(packetMappings, name, []);
          var tables :- Add(packets, name, []);
          packetMappings, packets := mappings, tables;
          var _ :- ParseNamespace(root[i].1);
          assert mappings[..|mappings| - 1] == m.mappings && tables[..|tables| - 1] == m.packets;
        }
        i := i + 1;
      }
      return Ok(());
    }
  
    /** `foreach (var key in PacketMappings[ns][dir].Keys)`: one `pr.Add`
        line per id, in table order, at the current depth. */
    /** The `Write` of one registration, with the two `FormatName` calls
        of its argument; a failing `FormatName` writes nothing. */
    method WriteRegistration(client: bool, ns: string, key: string, name: string) returns (ok: bool)
      requires Valid()
      modifies this`out, this`written
      ensures Valid()
      ensures ok == MappingLine(client, ns, key, name).Some?
      ensures ok ==> written == old(written) + [(tabs, MappingLine(client, ns, key, name).value)]
      ensures !ok ==> written == old(written)
    {
      var n := FormatName(ns);
      if n.None? {
        return false;
      }
      var p := FormatName(name);
      if p.None? {
        return false;
      }
      Write(Registration(client, key, n.value, p.value));
      return true;
    }

    /** `foreach (var key in PacketMappings[ns][dir].Keys)`: one `pr.Add`
        line per id, in table order, at the current depth. */
    method WriteIdRegistrations(client: bool, ns: string, table: IdTable) returns (ok: bool)
      requires Valid()
      modifies this`out, this`written
      ensures Valid()
      ensures ok == IdLines(client, ns, table).Some?
      ensures ok ==> written == old(written) + AtDepth(tabs, IdLines(client, ns, table).value)
    {
      ghost var done: seq<string> := [];
      assert table[0..] == table;
      CatEmpty(IdLines(client, ns, table));
      var k := 0;
      while k < |table|
        invariant 0 <= k <= |table|
        invariant Valid()
        invariant written == old(written) + AtDepth(tabs, done)
        invariant Cat(Some(done), IdLines(client, ns, table[k..])) == IdLines(client, ns, table)
      {
        IdLinesStep(client, ns, table, k, done);
        var found := WriteRegistration(client, ns, table[k].0, table[k].1);
        if !found {
          return false;
        }
        LogSnoc(old(written), tabs, done, MappingLine(client, ns, table[k].0, table[k].1).value);
        done := done + [MappingLine(client, ns, table[k].0, table[k].1).value];
        k := k + 1;
      }
      assert table[k..] == [];
      return true;
    }

    /** `foreach (var dir in PacketMappings[ns].Keys) if (dir == ...)`. */
    method WriteDirRegistrations(client: bool, ns: string, dirs: AList<IdTable>) returns (ok: bool)
      requires Valid()
      modifies this`out, this`written
      ensures Valid()
      ensures ok == DirLines(client, ns, dirs).Some?
      ensures ok ==> written == old(written) + AtDepth(tabs, DirLines(client, ns, dirs).value)
    {
      ghost var done: seq<string> := [];
      assert dirs[0..] == dirs;
      CatEmpty(DirLines(client, ns, dirs));
      var j := 0;
      while j < |dirs|
        invariant 0 <= j <= |dirs|
        invariant Valid()
        invariant written == old(written) + AtDepth(tabs, done)
        invariant Cat(Some(done), DirLines(client, ns, dirs[j..])) == DirLines(client, ns, dirs)
      {
        DirLinesStep(client, ns, dirs, j, done);
        if dirs[j].0 == DirName(client) {
          var found := WriteIdRegistrations(client, ns, dirs[j].1);
          if !found {
            return false;
          }
          LogAppend(old(written), tabs, done, IdLines(client, ns, dirs[j].1).value);
          done := done + IdLines(client, ns, dirs[j].1).value;
        }
        j := j + 1;
      }
      assert dirs[j..] == [];
      return true;
    }

    /** `foreach (var ns in PacketMappings.Keys)`: all registrations of one
        side, in namespace order. */
    method WriteRegistrations(client: bool) returns (ok: bool)
      requires Valid()
      modifies this`out, this`written
      ensures Valid()
      ensures ok == NsLines(client, packetMappings).Some?
      ensures ok ==> written == old(written) + AtDepth(tabs, NsLines(client, packetMappings).value)
    {
      ghost var done: seq<string> := [];
      assert packetMappings[0..] == packetMappings;
      CatEmpty(NsLines(client, packetMappings));
      var i := 0;
      while i < |packetMappings|
        invariant 0 <= i <= |packetMappings|
        invariant Valid()
        invariant written == old(written) + AtDepth(tabs, done)
        invariant Cat(Some(done), NsLines(client, packetMappings[i..])) == NsLines(client, packetMappings)
      {
        NsLinesStep(client, packetMappings, i, done);
        var found := WriteDirRegistrations(client, packetMappings[i].0, packetMappings[i].1);
        if !found {
          return false;
        }
        LogAppend(old(written), tabs, done, DirLines(client, packetMappings[i].0, packetMappings[i].1).value);
        done := done + DirLines(client, packetMappings[i].0, packetMappings[i].1).value;
        i := i + 1;
      }
      assert packetMappings[i..] == [];
      return true;
    }
  
    /** The body of `GenerateMapping` between `New()` and `Save`: the class
        header and the client and server registrations. */
    method WriteMappingBody() returns (ok: bool)
      requires Valid() && tabs == 0 && written == []
      modifies this`out, this`written, this`tabs
      ensures Valid()
      ensures ok == (NsLines(true, packetMappings).Some? && NsLines(false, packetMappings).Some?)
      ensures ok ==> written == Run(MappingHeader(Settings()), 0) + AtDepth(3, NsLines(true, packetMappings).value) +
                                 Run(MappingMiddle(), 3) + AtDepth(3, NsLines(false, packetMappings).value) +
                                 Run(Closing(), 3)
    {
      ghost var head := Run(MappingHeader(Settings()), 0);
      WriteMappingHeader();
      assert written == head && tabs == 3;
      ok := WriteRegistrations(true);
      if !ok {
        return;
      }
      WriteMappingMiddle();
      ok := WriteRegistrations(false);
      if !ok {
        return;
      }
      WriteEnd();
    }

    /** The `Mapping` region of `GenerateCode`: `New`, the header, the client
        registrations, the middle, the server registrations, the end, and
        the `Save`; a failing `FormatName` ends it before the `Save`. */
    method GenerateMapping() returns (ok: bool)
      modifies this`out, this`written, this`tabs, this`saved
      ensures Valid()
      ensures ok == MappingFile(Settings(), packetMappings).Some?
      ensures saved == old(saved) + One(MappingFile(Settings(), packetMappings)).files
    {
      New();
      ok := WriteMappingBody();
      if !ok {
        return;
      }
      MappingFileIs(Settings(), packetMappings, written);
      Save(MappingPath(Settings()));
    }

    /** `foreach (var key in ...) Write($"public {type} {key} { get; set; }")`. */
    method WriteDeclarations(fields: Fields)
      requires Valid()
      modifies this`out, this`written
      ensures Valid()
      ensures written == old(written) + AtDepth(tabs, Declarations(fields))
    {
      ghost var done: seq<string> := [];
      var i := 0;
      while i < |fields|
        invariant 0 <= i <= |fields|
        invariant done == Declarations(fields)[..i]
        invariant Valid()
        invariant written == old(written) + AtDepth(tabs, done)
      {
        var line := "public " + fields[i].1 + " " + fields[i].0 + " { get; set; }";
        Write(line);
        LogSnoc(old(written), tabs, done, line);
        assert line == Declarations(fields)[i];
        PrefixSnoc(Declarations(fields), i);
        done := done + [line];
        i := i + 1;
      }
      assert Declarations(fields)[..i] == Declarations(fields);
    }

    /** `foreach (var key in ...) Write($"ms.Write{type}({key});")`. */
    method WriteEncoders(fields: Fields)
      requires Valid()
      modifies this`out, this`written
      ensures Valid()
      ensures written == old(written) + AtDepth(tabs, Encoders(fields))
    {
      ghost var done: seq<string> := [];
      var i := 0;
      while i < |fields|
        invariant 0 <= i <= |fields|
        invariant done == Encoders(fields)[..i]
        invariant Valid()
        invariant written == old(written) + AtDepth(tabs, done)
      {
        var line := "ms.Write" + fields[i].1 + "(" + fields[i].0 + ");";
        Write(line);
        LogSnoc(old(written), tabs, done, line);
        assert line == Encoders(fields)[i];
        PrefixSnoc(Encoders(fields), i);
        done := done + [line];
        i := i + 1;
      }
      assert Encoders(fields)[..i] == Encoders(fields);
    }

    /** `foreach (var key in ...) Write($"{key} = ms.Read{type}();")`. */
    method WriteDecoders(fields: Fields)
      requires Valid()
      modifies this`out, this`written
      ensures Valid()
      ensures written == old(written) + AtDepth(tabs, Decoders(fields))
    {
      ghost var done: seq<string> := [];
      var i := 0;
      while i < |fields|
        invariant 0 <= i <= |fields|
        invariant done == Decoders(fields)[..i]
        invariant Valid()
        invariant written == old(written) + AtDepth(tabs, done)
      {
        var line := fields[i].0 + " = ms.Read" + fields[i].1 + "();";
        Write(line);
        LogSnoc(old(written), tabs, done, line);
        assert line == Decoders(fields)[i];
        PrefixSnoc(Decoders(fields), i);
        done := done + [line];
        i := i + 1;
      }
      assert Decoders(fields)[..i] == Decoders(fields);
    }

    /** The body of `GeneratePacket` between `New()` and `Save`: the class
        header, the field declarations, `Encode` and `Decode`. */
    method WritePacketBody(n: string, dir: string, p: string, fields: Fields)
      requires Valid() && tabs == 0 && written == []
      modifies this`out, this`written, this`tabs
      ensures Valid() && tabs == 0
      ensures written == Run(PacketHeader(Settings(), n, dir, p), 0) + AtDepth(2, Declarations(fields)) +
                         Run(PacketEncode(), 2) + AtDepth(3, Encoders(fields)) + Run(PacketDecode(), 3) +
                         AtDepth(3, Decoders(fields)) + Run(Closing(), 3)
    {
      ghost var head := Run(PacketHeader(Settings(), n, dir, p), 0);
      WritePacketHeader(n, dir, p);
      assert written == head && tabs == 2;
      WriteDeclarations(fields);
      WritePacketEncode();
      assert tabs == 3;
      WriteEncoders(fields);
      WritePacketDecode();
      WriteDecoders(fields);
      WriteEnd();
    }

    /** The body of the innermost packet loop: `New`, the header with the
        formatted names, the three field loops, the end and the `Save`
        (whose path formats the same two names again); a failing
        `FormatName` ends it before anything is saved. */
    method GeneratePacket(ns: string, dir: string, name: string, fields: Fields) returns (ok: bool)
      modifies this`out, this`written, this`tabs, this`saved
      ensures Valid()
      ensures ok == PacketFile(Settings(), ns, dir, name, fields).Some?
      ensures saved == old(saved) + One(PacketFile(Settings(), ns, dir, name, fields)).files
    {
      New();
      var n := FormatName(ns);
      if n.None? {
        return false;
      }
      var p := FormatName(name);
      if p.None? {
        return false;
      }
      WritePacketBody(n.value, dir, p.value, fields);
      PacketFileIs(Settings(), ns, dir, name, fields, written);
      Save(PacketPath(Settings(), n.value, dir, p.value));
      return true;
    }

    /** `foreach (var name in Packets[ns][dir].Keys)`. */
    method GenerateNamePackets(ns: string, dir: string, table: PacketTable) returns (ok: bool)
      requires Valid()
      modifies this`out, this`written, this`tabs, this`saved
      ensures Valid()
      ensures ok == NameFiles(Settings(), ns, dir, table).complete
      ensures saved == old(saved) + NameFiles(Settings(), ns, dir, table).files
    {
      ghost var done: seq<File> := [];
      assert table[0..] == table;
      ThenEmpty(NameFiles(Settings(), ns, dir, table));
      var k := 0;
      while k < |table|
        invariant 0 <= k <= |table|
        invariant Valid()
        invariant saved == old(saved) + done
        invariant Then(Saved(done, true), NameFiles(Settings(), ns, dir, table[k..])) == NameFiles(Settings(), ns, dir, table)
      {
        NameFilesStep(Settings(), ns, dir, table, k, done);
        ghost var f := PacketFile(Settings(), ns, dir, table[k].0, table[k].1);
        var made := GeneratePacket(ns, dir, table[k].0, table[k].1);
        if !made {
          assert saved == old(saved) + done + [];
          return false;
        }
        assert One(f).files == [f.value];
        FilesAppend(old(saved), done, [f.value]);
        done := done + [f.value];
        k := k + 1;
      }
      assert table[k..] == [];
      ThenDone(done);
      return true;
    }

    /** `foreach (var dir in Packets[ns].Keys)`. */
    method GenerateDirPackets(ns: string, dirs: AList<PacketTable>) returns (ok: bool)
      requires Valid()
      modifies this`out, this`written, this`tabs, this`saved
      ensures Valid()
      ensures ok == DirFiles(Settings(), ns, dirs).complete
      ensures saved == old(saved) + DirFiles(Settings(), ns, dirs).files
    {
      ghost var done: seq<File> := [];
      assert dirs[0..] == dirs;
      ThenEmpty(DirFiles(Settings(), ns, dirs));
      var j := 0;
      while j < |dirs|
        invariant 0 <= j <= |dirs|
        invariant Valid()
        invariant saved == old(saved) + done
        invariant Then(Saved(done, true), DirFiles(Settings(), ns, dirs[j..])) == DirFiles(Settings(), ns, dirs)
      {
        DirFilesStep(Settings(), ns, dirs, j, done);
        var made := GenerateNamePackets(ns, dirs[j].0, dirs[j].1);
        FilesAppend(old(saved), done, NameFiles(Settings(), ns, dirs[j].0, dirs[j].1).files);
        done := done + NameFiles(Settings(), ns, dirs[j].0, dirs[j].1).files;
        if !made {
          return false;
        }
        j := j + 1;
      }
      assert dirs[j..] == [];
      ThenDone(done);
      return true;
    }

    /** The `Packets` region of `GenerateCode`: one file per packet, in
        namespace, direction and table order, until a name fails to format. */
    method GeneratePackets() returns (ok: bool)
      requires Valid()
      modifies this`out, this`written, this`tabs, this`saved
      ensures Valid()
      ensures ok == NsFiles(Settings(), packets).complete
      ensures saved == old(saved) + NsFiles(Settings(), packets).files
    {
      ghost var done: seq<File> := [];
      assert packets[0..] == packets;
      ThenEmpty(NsFiles(Settings(), packets));
      var i := 0;
      while i < |packets|
        invariant 0 <= i <= |packets|
        invariant Valid()
        invariant saved == old(saved) + done
        invariant Then(Saved(done, true), NsFiles(Settings(), packets[i..])) == NsFiles(Settings(), packets)
      {
        NsFilesStep(Settings(), packets, i, done);
        var made := GenerateDirPackets(packets[i].0, packets[i].1);
        FilesAppend(old(saved), done, DirFiles(Settings(), packets[i].0, packets[i].1).files);
        done := done + DirFiles(Settings(), packets[i].0, packets[i].1).files;
        if !made {
          return false;
        }
        i := i + 1;
      }
      assert packets[i..] == [];
      ThenDone(done);
      return true;
    }

    /** `GenerateCode` and `Main`, from the parsed `protocol.json` on: the
        root loop, then the mapping file, then the packet files. */
    method GenerateCode(root: AList<Json>) returns (outcome: Outcome)
      requires Valid()
      modifies this`currentNamespace, this`currentDirection, this`packetMappings, this`packets
      modifies this`out, this`written, this`tabs, this`saved
      ensures Valid()
      ensures Parse(root).Failure? ==> outcome == ParseFailed(Parse(root).error) && saved == old(saved)
      ensures Parse(root).Ok? ==>
                Model(packetMappings, packets) == Parse(root).value &&
                saved == old(saved) + Generated(Settings(), Parse(root).value).files &&
                outcome == (if Generated(Settings(), Parse(root).value).complete then Done else FormatFailed)
    {
      var loaded := Load(root);
      if loaded.Failure? {
        return ParseFailed(loaded.error);
      }
      var mapped := GenerateMapping();
      if !mapped {
        return FormatFailed;
      }
      var made := GeneratePackets();
      FilesAppend(old(saved), One(MappingFile(Settings(), packetMappings)).files, NsFiles(Settings(), packets).files);
      return if made then Done else FormatFailed;
    }
  }
}
