/** What the code generator writes. Every `Write*` helper of Program.cs and
    Generator/Generator.cs is a fixed script of `Write`, `AddTab` and
    `RemoveTab` calls; running a script from an indentation depth yields the
    written lines, each with the depth it was written at. This module is the
    specification that the `Generator` class is proved against. */
module Emit {
  import opened Results
  import opened AssocList
  import opened Names
  import opened Schema

  /** `Program.Write` pads with `Tabs + 1` tab characters,
      `Generator.Write` with `Tabs` times four spaces. */
  datatype Indent = TabsPlusOne | FourSpaces

  /** The settings of one generator: indentation rule, `CodeName`,
      `MinecraftVersion` and `OutputFolder`. */
  datatype Config = Config(indent: Indent, codeName: string, version: string, outputFolder: string)

  /** One call on the output buffer. */
  datatype Op = WriteOp(text: string) | AddTabOp | RemoveTabOp

  /** A file handed to `File.WriteAllText`. */
  datatype File = File(path: string, content: string)

  /** `n` copies of `unit` (none when `n` is not positive). */
  function Repeat(unit: string, n: int): string
  {
    if n <= 0 then "" else Repeat(unit, n - 1) + unit
  }

  lemma {:induction false} RepeatShape(unit: string, n: int)
    ensures |Repeat(unit, n)| == (if n <= 0 then 0 else n * |unit|)
    ensures forall i :: 0 <= i < |Repeat(unit, n)| ==> Repeat(unit, n)[i] in unit
  {
    if n > 0 {
      RepeatShape(unit, n - 1);
    }
  }

  /** The padding `Write` puts in front of a line at depth `tabs`: the
      `for` loop runs `Tabs + 1` times in Program.cs (`i <= Tabs`) and
      `Tabs` times in Generator.cs (`i < Tabs`). */
  function Pad(indent: Indent, tabs: int): string
  {
    match indent
    case TabsPlusOne => Repeat("\t", tabs + 1)
    case FourSpaces => Repeat("    ", tabs)
  }

  lemma PadShape(indent: Indent, tabs: int)
    requires tabs >= 0
    ensures indent.TabsPlusOne? ==> |Pad(indent, tabs)| == tabs + 1 && forall i :: 0 <= i < tabs + 1 ==> Pad(indent, tabs)[i] == '\t'
    ensures indent.FourSpaces? ==> |Pad(indent, tabs)| == 4 * tabs && forall i :: 0 <= i < 4 * tabs ==> Pad(indent, tabs)[i] == ' '
  {
    RepeatShape("\t", tabs + 1);
    RepeatShape("    ", tabs);
  }

  /** One written line: padding, text, newline. */
  function Line(indent: Indent, tabs: int, text: string): string
  {
    Pad(indent, tabs) + text + "\n"
  }

  /** The text a sequence of (depth, text) writes appends to `Out`. */
  function FileText(indent: Indent, lines: seq<(int, string)>): string
  {
    if lines == [] then "" else Line(indent, lines[0].0, lines[0].1) + FileText(indent, lines[1..])
  }

  lemma {:induction false} FileTextAppend(indent: Indent, a: seq<(int, string)>, b: seq<(int, string)>)
    ensures FileText(indent, a + b) == FileText(indent, a) + FileText(indent, b)
    decreases |a|
  {
    if a != [] {
      assert (a + b)[1..] == a[1..] + b;
      FileTextAppend(indent, a[1..], b);
    } else {
      assert a + b == b;
    }
  }

  /** The lines a script writes when started at depth `tabs`. */
  function Run(ops: seq<Op>, tabs: int): seq<(int, string)>
    decreases |ops|
  {
    if ops == [] then []
    else match ops[0]
      case WriteOp(t) => [(tabs, t)] + Run(ops[1..], tabs)
      case AddTabOp => Run(ops[1..], tabs + 1)
      case RemoveTabOp => Run(ops[1..], tabs - 1)
  }

  /** The depth a script leaves behind. */
  function Depth(ops: seq<Op>, tabs: int): int
    decreases |ops|
  {
    if ops == [] then tabs
    else match ops[0]
      case WriteOp(_) => Depth(ops[1..], tabs)
      case AddTabOp => Depth(ops[1..], tabs + 1)
      case RemoveTabOp => Depth(ops[1..], tabs - 1)
  }

  /** Running two scripts one after the other is running their concatenation. */
  lemma {:induction false} RunAppend(a: seq<Op>, b: seq<Op>, tabs: int)
    ensures Run(a + b, tabs) == Run(a, tabs) + Run(b, Depth(a, tabs))
    ensures Depth(a + b, tabs) == Depth(b, Depth(a, tabs))
    decreases |a|
  {
    if a != [] {
      assert (a + b)[1..] == a[1..] + b;
      match a[0]
      case WriteOp(t) => RunAppend(a[1..], b, tabs);
      case AddTabOp => RunAppend(a[1..], b, tabs + 1);
      case RemoveTabOp => RunAppend(a[1..], b, tabs - 1);
    } else {
      assert a + b == b;
    }
  }

  /** `Write` of every text, in order. */
  function Writes(texts: seq<string>): (ops: seq<Op>)
    ensures |ops| == |texts|
    ensures forall i :: 0 <= i < |texts| ==> ops[i] == WriteOp(texts[i])
  {
    seq(|texts|, i requires 0 <= i < |texts| => WriteOp(texts[i]))
  }

  /** Plain writes keep the depth and write each text once, in order. */
  lemma {:induction false} RunWrites(texts: seq<string>, tabs: int)
    ensures Depth(Writes(texts), tabs) == tabs
    ensures |Run(Writes(texts), tabs)| == |texts|
    ensures forall i :: 0 <= i < |texts| ==> Run(Writes(texts), tabs)[i] == (tabs, texts[i])
    decreases |texts|
  {
    if texts != [] {
      assert Writes(texts)[1..] == Writes(texts[1..]);
      RunWrites(texts[1..], tabs);
    }
  }

  /** A tab change alone writes nothing. */
  lemma RunTab(op: Op, tabs: int)
    requires !op.WriteOp?
    ensures Run([op], tabs) == []
    ensures Depth([op], tabs) == if op.AddTabOp? then tabs + 1 else tabs - 1
  {
    assert [op][1..] == [];
  }

  /** A declaration line, its opening brace, and one more level of depth. */
  function Open(text: string): seq<Op>
  {
    Writes([text, "{"]) + [AddTabOp]
  }

  /** One level less of depth, and the closing brace. */
  function Close(): seq<Op>
  {
    [RemoveTabOp] + Writes(["}"])
  }

  lemma RunOpen(text: string, tabs: int)
    ensures Run(Open(text), tabs) == [(tabs, text), (tabs, "{")]
    ensures Depth(Open(text), tabs) == tabs + 1
  {
    RunWrites([text, "{"], tabs);
    RunAppend(Writes([text, "{"]), [AddTabOp], tabs);
    RunTab(AddTabOp, tabs);
  }

  lemma RunClose(tabs: int)
    ensures Run(Close(), tabs) == [(tabs - 1, "}")]
    ensures Depth(Close(), tabs) == tabs - 1
  {
    RunWrites(["}"], tabs - 1);
    RunAppend([RemoveTabOp], Writes(["}"]), tabs);
    RunTab(RemoveTabOp, tabs);
  }

  function Banner(version: string): string
  {
    "// This file was generated with Slime.Networking for Version " + version
  }

  /** The four lines every generated file starts with. */
  function Prelude(version: string): seq<string>
  {
    [Banner(version), "", "using Slime.Networking;", ""]
  }

  /** `WriteMappingHeader`. */
  function MappingHeader(c: Config): seq<Op>
  {
    Writes(Prelude(c.version)) + Open("namespace Slime.Networking.Versions." + c.codeName) +
    Open("public class " + c.codeName + "Mapping : IMapping") +
    Open("public static void AddClientPackets(PacketRegistry pr)")
  }

  /** `WriteMappingMiddle`. */
  function MappingMiddle(): seq<Op>
  {
    Close() + Writes([""]) + Open("public static void AddServerPackets(PacketRegistry pr)")
  }

  /** `WriteMappingEnd` and `WritePacketEnd`, which are the same script. */
  function Closing(): seq<Op>
  {
    Close() + Close() + Close()
  }

  /** `WritePacketHeader(ns, dir, packetname)`. */
  function PacketHeader(c: Config, ns: string, dir: string, packetName: string): seq<Op>
  {
    Writes(Prelude(c.version)) + Open("namespace Slime.Networking.Versions." + c.codeName + "." + ns + "." + dir) +
    Open("public class " + packetName + " : IPacket, IDeEncodeAble")
  }

  /** `WritePacketEncode`. */
  function PacketEncode(): seq<Op>
  {
    Writes([""]) + Open("public void Encode(MinecraftStream ms)")
  }

  /** `WritePacketDecode`. */
  function PacketDecode(): seq<Op>
  {
    Close() + Writes([""]) + Open("public void Decode(MinecraftStream ms)")
  }

  /** `n` texts written at one depth. */
  function AtDepth(tabs: int, texts: seq<string>): (r: seq<(int, string)>)
    ensures |r| == |texts|
    ensures forall i :: 0 <= i < |texts| ==> r[i] == (tabs, texts[i])
  {
    seq(|texts|, i requires 0 <= i < |texts| => (tabs, texts[i]))
  }

  lemma RunWritesAt(texts: seq<string>, tabs: int)
    ensures Run(Writes(texts), tabs) == AtDepth(tabs, texts)
    ensures Depth(Writes(texts), tabs) == tabs
  {
    RunWrites(texts, tabs);
  }

  /** The mapping header writes the prelude, then opens the namespace, the
      class and `AddClientPackets` one level deeper each. */
  lemma MappingHeaderRun(c: Config, t: int)
    ensures Run(MappingHeader(c), t) ==
              AtDepth(t, Prelude(c.version)) +
              [(t, "namespace Slime.Networking.Versions." + c.codeName), (t, "{"),
               (t + 1, "public class " + c.codeName + "Mapping : IMapping"), (t + 1, "{"),
               (t + 2, "public static void AddClientPackets(PacketRegistry pr)"), (t + 2, "{")]
    ensures Depth(MappingHeader(c), t) == t + 3
  {
    var w := Writes(Prelude(c.version));
    var o1 := Open("namespace Slime.Networking.Versions." + c.codeName);
    var o2 := Open("public class " + c.codeName + "Mapping : IMapping");
    var o3 := Open("public static void AddClientPackets(PacketRegistry pr)");
    RunWritesAt(Prelude(c.version), t);
    RunOpen("namespace Slime.Networking.Versions." + c.codeName, t);
    RunOpen("public class " + c.codeName + "Mapping : IMapping", t + 1);
    RunOpen("public static void AddClientPackets(PacketRegistry pr)", t + 2);
    RunAppend(w, o1, t);
    RunAppend(w + o1, o2, t);
    RunAppend(w + o1 + o2, o3, t);
  }

  /** The middle closes `AddClientPackets` and opens `AddServerPackets` at
      the same depth. */
  lemma MappingMiddleRun(t: int)
    ensures Run(MappingMiddle(), t) ==
              [(t - 1, "}"), (t - 1, ""), (t - 1, "public static void AddServerPackets(PacketRegistry pr)"), (t - 1, "{")]
    ensures Depth(MappingMiddle(), t) == t
  {
    var o := Open("public static void AddServerPackets(PacketRegistry pr)");
    RunClose(t);
    RunWritesAt([""], t - 1);
    RunOpen("public static void AddServerPackets(PacketRegistry pr)", t - 1);
    RunAppend(Close(), Writes([""]), t);
    RunAppend(Close() + Writes([""]), o, t);
  }

  /** The end closes three levels. */
  lemma ClosingRun(t: int)
    ensures Run(Closing(), t) == [(t - 1, "}"), (t - 2, "}"), (t - 3, "}")]
    ensures Depth(Closing(), t) == t - 3
  {
    RunClose(t);
    RunClose(t - 1);
    RunClose(t - 2);
    RunAppend(Close(), Close(), t);
    RunAppend(Close() + Close(), Close(), t);
  }

  /** The packet header opens the namespace and the class. */
  lemma PacketHeaderRun(c: Config, ns: string, dir: string, name: string, t: int)
    ensures Run(PacketHeader(c, ns, dir, name), t) ==
              AtDepth(t, Prelude(c.version)) +
              [(t, "namespace Slime.Networking.Versions." + c.codeName + "." + ns + "." + dir), (t, "{"),
               (t + 1, "public class " + name + " : IPacket, IDeEncodeAble"), (t + 1, "{")]
    ensures Depth(PacketHeader(c, ns, dir, name), t) == t + 2
  {
    var w := Writes(Prelude(c.version));
    var o1 := Open("namespace Slime.Networking.Versions." + c.codeName + "." + ns + "." + dir);
    var o2 := Open("public class " + name + " : IPacket, IDeEncodeAble");
    RunWritesAt(Prelude(c.version), t);
    RunOpen("namespace Slime.Networking.Versions." + c.codeName + "." + ns + "." + dir, t);
    RunOpen("public class " + name + " : IPacket, IDeEncodeAble", t + 1);
    RunAppend(w, o1, t);
    RunAppend(w + o1, o2, t);
  }

  lemma PacketEncodeRun(t: int)
    ensures Run(PacketEncode(), t) == [(t, ""), (t, "public void Encode(MinecraftStream ms)"), (t, "{")]
    ensures Depth(PacketEncode(), t) == t + 1
  {
    RunWritesAt([""], t);
    RunOpen("public void Encode(MinecraftStream ms)", t);
    RunAppend(Writes([""]), Open("public void Encode(MinecraftStream ms)"), t);
  }

  /** The decoder closes the encoder and opens `Decode` at the same depth. */
  lemma PacketDecodeRun(t: int)
    ensures Run(PacketDecode(), t) ==
              [(t - 1, "}"), (t - 1, ""), (t - 1, "public void Decode(MinecraftStream ms)"), (t - 1, "{")]
    ensures Depth(PacketDecode(), t) == t
  {
    RunClose(t);
    RunWritesAt([""], t - 1);
    RunOpen("public void Decode(MinecraftStream ms)", t - 1);
    RunAppend(Close(), Writes([""]), t);
    RunAppend(Close() + Writes([""]), Open("public void Decode(MinecraftStream ms)"), t);
  }

  /** The open braces left after `lines`, starting from `open`, provided
      that every line sits at the depth of the braces open before it (a
      closing brace one level less); `None` when some line does not. */
  function Nest(lines: seq<(int, string)>, open: int): Option<int>
    decreases |lines|
  {
    if lines == [] then Some(open)
    else if lines[0].1 == "}" then
      if lines[0].0 == open - 1 then Nest(lines[1..], open - 1) else None
    else if lines[0].0 != open then None
    else if lines[0].1 == "{" then Nest(lines[1..], open + 1)
    else Nest(lines[1..], open)
  }

  lemma {:induction false} NestAppend(a: seq<(int, string)>, b: seq<(int, string)>, open: int)
    requires Nest(a, open).Some?
    ensures Nest(a + b, open) == Nest(b, Nest(a, open).value)
    decreases |a|
  {
    if a == [] {
      assert a + b == b;
    } else {
      assert (a + b)[1..] == a[1..] + b;
      if a[0].1 == "}" {
        NestAppend(a[1..], b, open - 1);
      } else if a[0].1 == "{" {
        NestAppend(a[1..], b, open + 1);
      } else {
        NestAppend(a[1..], b, open);
      }
    }
  }

  /** A declaration line and its opening brace go one level deeper. */
  lemma NestOpen(t: int, text: string)
    requires text != "{" && text != "}"
    ensures Nest([(t, text), (t, "{")], t) == Some(t + 1)
  {
    var rest := [(t, "{")];
    assert [(t, text), (t, "{")][1..] == rest;
    assert rest[1..] == [];
    assert Nest(rest, t) == Nest([], t + 1);
  }

  predicate NoBrace(texts: seq<string>)
  {
    forall i :: 0 <= i < |texts| ==> texts[i] != "{" && texts[i] != "}"
  }

  /** Lines without braces at the current depth leave the nesting alone. */
  lemma {:induction false} NestAt(tabs: int, texts: seq<string>)
    requires NoBrace(texts)
    ensures Nest(AtDepth(tabs, texts), tabs) == Some(tabs)
    decreases |texts|
  {
    if texts != [] {
      assert AtDepth(tabs, texts)[1..] == AtDepth(tabs, texts[1..]);
      NestAt(tabs, texts[1..]);
    }
  }

  /** How deep each fixed script leaves the output. */
  lemma ScriptDepths(c: Config, ns: string, dir: string, name: string)
    ensures Depth(MappingHeader(c), 0) == 3 && Depth(MappingMiddle(), 3) == 3
    ensures Depth(PacketHeader(c, ns, dir, name), 0) == 2 && Depth(PacketEncode(), 2) == 3
    ensures Depth(PacketDecode(), 3) == 3 && Depth(Closing(), 3) == 0
  {
    MappingHeaderRun(c, 0);
    MappingMiddleRun(3);
    PacketHeaderRun(c, ns, dir, name, 0);
    PacketEncodeRun(2);
    PacketDecodeRun(3);
    ClosingRun(3);
  }

  /** The mapping script, part by part. */
  lemma MappingOpsRun(c: Config, cl: seq<string>, sl: seq<string>)
    ensures Run(MappingOps(c, cl, sl), 0) ==
              Run(MappingHeader(c), 0) + AtDepth(3, cl) + Run(MappingMiddle(), 3) + AtDepth(3, sl) + Run(Closing(), 3)
    ensures Depth(MappingOps(c, cl, sl), 0) == 0
  {
    var h := MappingHeader(c);
    var w1 := Writes(cl);
    var m := MappingMiddle();
    var w2 := Writes(sl);
    ScriptDepths(c, "", "", "");
    RunWritesAt(cl, 3);
    RunWritesAt(sl, 3);
    RunAppend(h, w1, 0);
    assert Depth(h + w1, 0) == 3;
    RunAppend(h + w1, m, 0);
    assert Depth(h + w1 + m, 0) == 3;
    RunAppend(h + w1 + m, w2, 0);
    assert Depth(h + w1 + m + w2, 0) == 3;
    RunAppend(h + w1 + m + w2, Closing(), 0);
  }

  /** A packet script, part by part. */
  lemma PacketOpsRun(c: Config, ns: string, dir: string, name: string, fields: Fields)
    ensures Run(PacketOps(c, ns, dir, name, fields), 0) ==
              Run(PacketHeader(c, ns, dir, name), 0) + AtDepth(2, Declarations(fields)) + Run(PacketEncode(), 2) +
              AtDepth(3, Encoders(fields)) + Run(PacketDecode(), 3) + AtDepth(3, Decoders(fields)) + Run(Closing(), 3)
    ensures Depth(PacketOps(c, ns, dir, name, fields), 0) == 0
  {
    var h := PacketHeader(c, ns, dir, name);
    var ds, es, rs := Declarations(fields), Encoders(fields), Decoders(fields);
    ScriptDepths(c, ns, dir, name);
    RunWritesAt(ds, 2);
    RunWritesAt(es, 3);
    RunWritesAt(rs, 3);
    var s1 := h + Writes(ds);
    RunAppend(h, Writes(ds), 0);
    assert Run(s1, 0) == Run(h, 0) + AtDepth(2, ds) && Depth(s1, 0) == 2;
    var s2 := s1 + PacketEncode();
    RunAppend(s1, PacketEncode(), 0);
    assert Run(s2, 0) == Run(s1, 0) + Run(PacketEncode(), 2) && Depth(s2, 0) == 3;
    var s3 := s2 + Writes(es);
    RunAppend(s2, Writes(es), 0);
    assert Run(s3, 0) == Run(s2, 0) + AtDepth(3, es) && Depth(s3, 0) == 3;
    var s4 := s3 + PacketDecode();
    RunAppend(s3, PacketDecode(), 0);
    assert Run(s4, 0) == Run(s3, 0) + Run(PacketDecode(), 3) && Depth(s4, 0) == 3;
    var s5 := s4 + Writes(rs);
    RunAppend(s4, Writes(rs), 0);
    assert Run(s5, 0) == Run(s4, 0) + AtDepth(3, rs) && Depth(s5, 0) == 3;
    RunAppend(s5, Closing(), 0);
    assert PacketOps(c, ns, dir, name, fields) == s5 + Closing();
  }

  lemma PrefixSnoc(xs: seq<string>, i: nat)
    requires i < |xs|
    ensures xs[..i + 1] == xs[..i] + [xs[i]]
  {
  }

  /** A log holding `done` at depth `t` after `w`, with `more` lines. */
  lemma LogAppend(w: seq<(int, string)>, t: int, done: seq<string>, more: seq<string>)
    ensures w + AtDepth(t, done) + AtDepth(t, more) == w + AtDepth(t, done + more)
  {
    AtDepthAppend(t, done, more);
  }

  /** A log holding `done` at depth `t` after `w`, with one line more. */
  lemma LogSnoc(w: seq<(int, string)>, t: int, done: seq<string>, l: string)
    ensures w + AtDepth(t, done) + [(t, l)] == w + AtDepth(t, done + [l])
  {
    AtDepthAppend(t, done, [l]);
    assert AtDepth(t, [l]) == [(t, l)];
  }

  lemma AtDepthAppend(t: int, a: seq<string>, b: seq<string>)
    ensures AtDepth(t, a + b) == AtDepth(t, a) + AtDepth(t, b)
  {
  }

  /** The mapping file: prelude, the three openings, each client
      registration at depth 3, the switch to `AddServerPackets`, each server
      registration at depth 3, and three closing braces back to depth 0. */
  lemma MappingLayout(c: Config, cl: seq<string>, sl: seq<string>)
    ensures Run(MappingOps(c, cl, sl), 0) ==
              AtDepth(0, Prelude(c.version)) +
              [(0, "namespace Slime.Networking.Versions." + c.codeName), (0, "{"),
               (1, "public class " + c.codeName + "Mapping : IMapping"), (1, "{"),
               (2, "public static void AddClientPackets(PacketRegistry pr)"), (2, "{")] +
              AtDepth(3, cl) +
              [(2, "}"), (2, ""), (2, "public static void AddServerPackets(PacketRegistry pr)"), (2, "{")] +
              AtDepth(3, sl) +
              [(2, "}"), (1, "}"), (0, "}")]
    ensures Depth(MappingOps(c, cl, sl), 0) == 0
  {
    MappingOpsRun(c, cl, sl);
    MappingHeaderRun(c, 0);
    MappingMiddleRun(3);
    ClosingRun(3);
    var h, m, e := Run(MappingHeader(c), 0), Run(MappingMiddle(), 3), Run(Closing(), 3);
    assert Run(MappingOps(c, cl, sl), 0) == h + AtDepth(3, cl) + m + AtDepth(3, sl) + e;
  }

  /** A mapping file has 17 fixed lines besides its registrations. */
  lemma MappingLength(c: Config, cl: seq<string>, sl: seq<string>)
    ensures |Run(MappingOps(c, cl, sl), 0)| == 17 + |cl| + |sl|
  {
    MappingLayout(c, cl, sl);
  }

  /** With registrations that are not braces, every line of the mapping
      file is indented by the number of braces open before it, and the
      braces balance. */
  lemma MappingNested(c: Config, cl: seq<string>, sl: seq<string>)
    requires NoBrace(cl) && NoBrace(sl)
    ensures Nest(Run(MappingOps(c, cl, sl), 0), 0) == Some(0)
  {
    MappingLayout(c, cl, sl);
    var a := AtDepth(0, Prelude(c.version));
    var b := [(0, "namespace Slime.Networking.Versions." + c.codeName), (0, "{"),
              (1, "public class " + c.codeName + "Mapping : IMapping"), (1, "{"),
              (2, "public static void AddClientPackets(PacketRegistry pr)"), (2, "{")];
    var d := [(2, "}"), (2, ""), (2, "public static void AddServerPackets(PacketRegistry pr)"), (2, "{")];
    var f := [(2, "}"), (1, "}"), (0, "}")];
    PreludeNested(c.version);
    MappingOpenings(c);
    NestAt(3, cl);
    NestAt(3, sl);
    assert Nest(d, 3) == Some(3);
    assert Nest(f, 3) == Some(0);
    var s1 := a + b;
    NestAppend(a, b, 0);
    assert Nest(s1, 0) == Some(3);
    var s2 := s1 + AtDepth(3, cl);
    NestAppend(s1, AtDepth(3, cl), 0);
    assert Nest(s2, 0) == Some(3);
    var s3 := s2 + d;
    NestAppend(s2, d, 0);
    assert Nest(s3, 0) == Some(3);
    var s4 := s3 + AtDepth(3, sl);
    NestAppend(s3, AtDepth(3, sl), 0);
    assert Nest(s4, 0) == Some(3);
    NestAppend(s4, f, 0);
  }

  lemma PreludeNested(version: string)
    ensures Nest(AtDepth(0, Prelude(version)), 0) == Some(0)
  {
    assert NoBrace(Prelude(version));
    NestAt(0, Prelude(version));
  }

  lemma MappingOpenings(c: Config)
    ensures Nest([(0, "namespace Slime.Networking.Versions." + c.codeName), (0, "{"),
                  (1, "public class " + c.codeName + "Mapping : IMapping"), (1, "{"),
                  (2, "public static void AddClientPackets(PacketRegistry pr)"), (2, "{")], 0) == Some(3)
  {
    var ns := "namespace Slime.Networking.Versions." + c.codeName;
    var cls := "public class " + c.codeName + "Mapping : IMapping";
    var add := "public static void AddClientPackets(PacketRegistry pr)";
    assert |ns| > 1 && |cls| > 1 && |add| > 1;
    NestOpen(0, ns);
    NestOpen(1, cls);
    NestOpen(2, add);
    NestAppend([(0, ns), (0, "{")], [(1, cls), (1, "{")], 0);
    NestAppend([(0, ns), (0, "{")] + [(1, cls), (1, "{")], [(2, add), (2, "{")], 0);
    assert [(0, ns), (0, "{")] + [(1, cls), (1, "{")] + [(2, add), (2, "{")] ==
           [(0, ns), (0, "{"), (1, cls), (1, "{"), (2, add), (2, "{")];
  }

  /** A packet file: prelude, namespace and class openings, one property
      per field at depth 2, `Encode` with one write per field at depth 3,
      `Decode` with one read per field at depth 3, and the closing braces. */
  lemma PacketLayout(c: Config, ns: string, dir: string, name: string, fields: Fields)
    ensures Run(PacketOps(c, ns, dir, name, fields), 0) ==
              AtDepth(0, Prelude(c.version)) +
              [(0, "namespace Slime.Networking.Versions." + c.codeName + "." + ns + "." + dir), (0, "{"),
               (1, "public class " + name + " : IPacket, IDeEncodeAble"), (1, "{")] +
              AtDepth(2, Declarations(fields)) +
              [(2, ""), (2, "public void Encode(MinecraftStream ms)"), (2, "{")] +
              AtDepth(3, Encoders(fields)) +
              [(2, "}"), (2, ""), (2, "public void Decode(MinecraftStream ms)"), (2, "{")] +
              AtDepth(3, Decoders(fields)) +
              [(2, "}"), (1, "}"), (0, "}")]
    ensures Depth(PacketOps(c, ns, dir, name, fields), 0) == 0
  {
    PacketOpsRun(c, ns, dir, name, fields);
    PacketHeaderRun(c, ns, dir, name, 0);
    PacketEncodeRun(2);
    PacketDecodeRun(3);
    ClosingRun(3);
  }

  /** A packet file has 18 fixed lines and three per field. */
  lemma PacketLength(c: Config, ns: string, dir: string, name: string, fields: Fields)
    ensures |Run(PacketOps(c, ns, dir, name, fields), 0)| == 18 + 3 * |fields|
  {
    PacketLayout(c, ns, dir, name, fields);
  }

  /** Field lines are never braces, so every packet file is nested
      properly, whatever its fields. */
  lemma PacketNested(c: Config, ns: string, dir: string, name: string, fields: Fields)
    ensures Nest(Run(PacketOps(c, ns, dir, name, fields), 0), 0) == Some(0)
  {
    PacketLayout(c, ns, dir, name, fields);
    var a := AtDepth(0, Prelude(c.version));
    var b := [(0, "namespace Slime.Networking.Versions." + c.codeName + "." + ns + "." + dir), (0, "{"),
              (1, "public class " + name + " : IPacket, IDeEncodeAble"), (1, "{")];
    var e := [(2, ""), (2, "public void Encode(MinecraftStream ms)"), (2, "{")];
    var d := [(2, "}"), (2, ""), (2, "public void Decode(MinecraftStream ms)"), (2, "{")];
    var f := [(2, "}"), (1, "}"), (0, "}")];
    var ds, es, rs := Declarations(fields), Encoders(fields), Decoders(fields);
    PreludeNested(c.version);
    PacketOpenings(c, ns, dir, name);
    FieldLinesNoBrace(fields);
    NestAt(2, ds);
    NestAt(3, es);
    NestAt(3, rs);
    assert Nest(e, 2) == Some(3);
    assert Nest(d, 3) == Some(3);
    assert Nest(f, 3) == Some(0);
    var s1 := a + b;
    NestAppend(a, b, 0);
    assert Nest(s1, 0) == Some(2);
    var s2 := s1 + AtDepth(2, ds);
    NestAppend(s1, AtDepth(2, ds), 0);
    assert Nest(s2, 0) == Some(2);
    var s3 := s2 + e;
    NestAppend(s2, e, 0);
    assert Nest(s3, 0) == Some(3);
    var s4 := s3 + AtDepth(3, es);
    NestAppend(s3, AtDepth(3, es), 0);
    assert Nest(s4, 0) == Some(3);
    var s5 := s4 + d;
    NestAppend(s4, d, 0);
    assert Nest(s5, 0) == Some(3);
    var s6 := s5 + AtDepth(3, rs);
    NestAppend(s5, AtDepth(3, rs), 0);
    assert Nest(s6, 0) == Some(3);
    NestAppend(s6, f, 0);
  }

  lemma PacketOpenings(c: Config, ns: string, dir: string, name: string)
    ensures Nest([(0, "namespace Slime.Networking.Versions." + c.codeName + "." + ns + "." + dir), (0, "{"),
                  (1, "public class " + name + " : IPacket, IDeEncodeAble"), (1, "{")], 0) == Some(2)
  {
    var nsl := "namespace Slime.Networking.Versions." + c.codeName + "." + ns + "." + dir;
    var cls := "public class " + name + " : IPacket, IDeEncodeAble";
    assert |nsl| > 1 && |cls| > 1;
    NestOpen(0, nsl);
    NestOpen(1, cls);
    NestAppend([(0, nsl), (0, "{")], [(1, cls), (1, "{")], 0);
    assert [(0, nsl), (0, "{")] + [(1, cls), (1, "{")] == [(0, nsl), (0, "{"), (1, cls), (1, "{")];
  }

  /** Property, write and read lines are never braces. */
  lemma FieldLinesNoBrace(fields: Fields)
    ensures NoBrace(Declarations(fields)) && NoBrace(Encoders(fields)) && NoBrace(Decoders(fields))
  {
    var ds, es, rs := Declarations(fields), Encoders(fields), Decoders(fields);
    forall i | 0 <= i < |ds| ensures ds[i] != "{" && ds[i] != "}" {
      assert ds[i][0] == 'p';
    }
    forall i | 0 <= i < |es| ensures es[i] != "{" && es[i] != "}" {
      assert es[i][0] == 'm';
    }
    forall i | 0 <= i < |rs| ensures rs[i] != "{" && rs[i] != "}" {
      assert |rs[i]| > 1;
    }
  }

  /** One registration line; the client form has two spaces before the
      packet name, the server form one. */
  function Registration(client: bool, key: string, ns: string, name: string): string
  {
    "pr.Add(" + key + ", \"" + ns + "\"," + (if client then "  " else " ") + name + ");"
  }

  /** The registration of one id; `None` is the exception `FormatName`
      raises for the namespace or the packet name. */
  function MappingLine(client: bool, ns: string, key: string, name: string): Option<string>
  {
    var n :- Formatted(ns);
    var p :- Formatted(name);
    Some(Registration(client, key, n, p))
  }

  /** The direction a registration loop keeps. */
  function DirName(client: bool): string
  {
    if client then Client else Server
  }

  /** `foreach (var key in PacketMappings[ns][dir].Keys)`. */
  function IdLines(client: bool, ns: string, table: IdTable): Option<seq<string>>
    decreases |table|
  {
    if table == [] then Some([])
    else
      var l :- MappingLine(client, ns, table[0].0, table[0].1);
      var rest :- IdLines(client, ns, table[1..]);
      Some([l] + rest)
  }

  /** `foreach (var dir in PacketMappings[ns].Keys) if (dir == ...)`. */
  function DirLines(client: bool, ns: string, dirs: AList<IdTable>): Option<seq<string>>
    decreases |dirs|
  {
    if dirs == [] then Some([])
    else
      var here :- if dirs[0].0 == DirName(client) then IdLines(client, ns, dirs[0].1) else Some([]);
      var rest :- DirLines(client, ns, dirs[1..]);
      Some(here + rest)
  }

  /** `foreach (var ns in PacketMappings.Keys)`: all registrations of one side. */
  function NsLines(client: bool, nss: AList<AList<IdTable>>): Option<seq<string>>
    decreases |nss|
  {
    if nss == [] then Some([])
    else
      var here :- DirLines(client, nss[0].0, nss[0].1);
      var rest :- NsLines(client, nss[1..]);
      Some(here + rest)
  }

  lemma NoBraceAppend(a: seq<string>, b: seq<string>)
    requires NoBrace(a) && NoBrace(b)
    ensures NoBrace(a + b)
  {
    forall i | 0 <= i < |a + b| ensures (a + b)[i] != "{" && (a + b)[i] != "}" {
      if i < |a| { assert (a + b)[i] == a[i]; } else { assert (a + b)[i] == b[i - |a|]; }
    }
  }

  lemma {:induction false} IdLinesNoBrace(client: bool, ns: string, table: IdTable)
    ensures IdLines(client, ns, table).Some? ==> NoBrace(IdLines(client, ns, table).value)
    decreases |table|
  {
    if table != [] && IdLines(client, ns, table).Some? {
      var l := MappingLine(client, ns, table[0].0, table[0].1).value;
      assert l[0] == 'p';
      IdLinesNoBrace(client, ns, table[1..]);
      NoBraceAppend([l], IdLines(client, ns, table[1..]).value);
    }
  }

  lemma {:induction false} DirLinesNoBrace(client: bool, ns: string, dirs: AList<IdTable>)
    ensures DirLines(client, ns, dirs).Some? ==> NoBrace(DirLines(client, ns, dirs).value)
    decreases |dirs|
  {
    if dirs != [] && DirLines(client, ns, dirs).Some? {
      IdLinesNoBrace(client, ns, dirs[0].1);
      DirLinesNoBrace(client, ns, dirs[1..]);
      var here := if dirs[0].0 == DirName(client) then IdLines(client, ns, dirs[0].1).value else [];
      NoBraceAppend(here, DirLines(client, ns, dirs[1..]).value);
    }
  }

  /** Registration lines are never braces. */
  lemma {:induction false} RegistrationLinesNoBrace(client: bool, nss: AList<AList<IdTable>>)
    ensures NsLines(client, nss).Some? ==> NoBrace(NsLines(client, nss).value)
    decreases |nss|
  {
    if nss != [] && NsLines(client, nss).Some? {
      DirLinesNoBrace(client, nss[0].0, nss[0].1);
      RegistrationLinesNoBrace(client, nss[1..]);
      NoBraceAppend(DirLines(client, nss[0].0, nss[0].1).value, NsLines(client, nss[1..]).value);
    }
  }

  /** So every mapping file the generator writes is nested properly. */
  lemma MappingFileNested(c: Config, mappings: AList<AList<IdTable>>)
    requires NsLines(true, mappings).Some? && NsLines(false, mappings).Some?
    ensures Nest(Run(MappingOps(c, NsLines(true, mappings).value, NsLines(false, mappings).value), 0), 0) == Some(0)
  {
    RegistrationLinesNoBrace(true, mappings);
    RegistrationLinesNoBrace(false, mappings);
    MappingNested(c, NsLines(true, mappings).value, NsLines(false, mappings).value);
  }

  /** The whole script of the mapping file. */
  function MappingOps(c: Config, clientLines: seq<string>, serverLines: seq<string>): seq<Op>
  {
    MappingHeader(c) + Writes(clientLines) + MappingMiddle() + Writes(serverLines) + Closing()
  }

  function MappingPath(c: Config): string
  {
    c.outputFolder + c.codeName + "Mapping.g.cs"
  }

  /** The mapping file, or `None` when a name cannot be formatted. */
  function MappingFile(c: Config, mappings: AList<AList<IdTable>>): Option<File>
  {
    var cl :- NsLines(true, mappings);
    var sl :- NsLines(false, mappings);
    Some(File(MappingPath(c), FileText(c.indent, Run(MappingOps(c, cl, sl), 0))))
  }

  /** The property declaration, encoder call and decoder call of a field. */
  function Declarations(fields: Fields): seq<string>
  {
    seq(|fields|, i requires 0 <= i < |fields| => "public " + fields[i].1 + " " + fields[i].0 + " { get; set; }")
  }

  function Encoders(fields: Fields): seq<string>
  {
    seq(|fields|, i requires 0 <= i < |fields| => "ms.Write" + fields[i].1 + "(" + fields[i].0 + ");")
  }

  function Decoders(fields: Fields): seq<string>
  {
    seq(|fields|, i requires 0 <= i < |fields| => fields[i].0 + " = ms.Read" + fields[i].1 + "();")
  }

  /** The whole script of one packet file, with formatted names. */
  function PacketOps(c: Config, ns: string, dir: string, name: string, fields: Fields): seq<Op>
  {
    PacketHeader(c, ns, dir, name) + Writes(Declarations(fields)) + PacketEncode() +
    Writes(Encoders(fields)) + PacketDecode() + Writes(Decoders(fields)) + Closing()
  }

  function PacketPath(c: Config, ns: string, dir: string, name: string): string
  {
    c.outputFolder + c.codeName + "/" + ns + "/" + dir + "/" + name + ".g.cs"
  }

  /** One packet file, or `None` when a name cannot be formatted. */
  function PacketFile(c: Config, ns: string, dir: string, name: string, fields: Fields): Option<File>
  {
    var n :- Formatted(ns);
    var p :- Formatted(name);
    Some(File(PacketPath(c, n, dir, p), FileText(c.indent, Run(PacketOps(c, n, dir, p, fields), 0))))
  }

  /** The packet file, once both names have been formatted. */
  lemma PacketFileIs(c: Config, ns: string, dir: string, name: string, fields: Fields, w: seq<(int, string)>)
    requires Formatted(ns).Some? && Formatted(name).Some?
    requires w == Run(PacketHeader(c, Formatted(ns).value, dir, Formatted(name).value), 0) + AtDepth(2, Declarations(fields)) +
                  Run(PacketEncode(), 2) + AtDepth(3, Encoders(fields)) + Run(PacketDecode(), 3) +
                  AtDepth(3, Decoders(fields)) + Run(Closing(), 3)
    ensures PacketFile(c, ns, dir, name, fields) ==
              Some(File(PacketPath(c, Formatted(ns).value, dir, Formatted(name).value), FileText(c.indent, w)))
  {
    PacketOpsRun(c, Formatted(ns).value, dir, Formatted(name).value, fields);
  }

  /** The mapping file, once both sides' registrations have been formatted. */
  lemma MappingFileIs(c: Config, mappings: AList<AList<IdTable>>, w: seq<(int, string)>)
    requires NsLines(true, mappings).Some? && NsLines(false, mappings).Some?
    requires w == Run(MappingHeader(c), 0) + AtDepth(3, NsLines(true, mappings).value) + Run(MappingMiddle(), 3) +
                  AtDepth(3, NsLines(false, mappings).value) + Run(Closing(), 3)
    ensures MappingFile(c, mappings) == Some(File(MappingPath(c), FileText(c.indent, w)))
  {
    MappingOpsRun(c, NsLines(true, mappings).value, NsLines(false, mappings).value);
  }

  /** The files saved by a run, and whether it got to the end; a failing
      `FormatName` ends the run and keeps the files already saved. */
  datatype Saved = Saved(files: seq<File>, complete: bool)

  /** `a`, and then `b` if `a` got to the end. */
  function Then(a: Saved, b: Saved): Saved
  {
    if a.complete then Saved(a.files + b.files, b.complete) else a
  }

  function One(f: Option<File>): Saved
  {
    if f.Some? then Saved([f.value], true) else Saved([], false)
  }

  /** `foreach (var name in Packets[ns][dir].Keys)`. */
  function NameFiles(c: Config, ns: string, dir: string, table: PacketTable): Saved
    decreases |table|
  {
    if table == [] then Saved([], true)
    else Then(One(PacketFile(c, ns, dir, table[0].0, table[0].1)), NameFiles(c, ns, dir, table[1..]))
  }

  /** `foreach (var dir in Packets[ns].Keys)`. */
  function DirFiles(c: Config, ns: string, dirs: AList<PacketTable>): Saved
    decreases |dirs|
  {
    if dirs == [] then Saved([], true)
    else Then(NameFiles(c, ns, dirs[0].0, dirs[0].1), DirFiles(c, ns, dirs[1..]))
  }

  /** `foreach (var ns in Packets.Keys)`: the packet files. */
  function NsFiles(c: Config, packets: AList<AList<PacketTable>>): Saved
    decreases |packets|
  {
    if packets == [] then Saved([], true)
    else Then(DirFiles(c, packets[0].0, packets[0].1), NsFiles(c, packets[1..]))
  }

  /** Everything the generation phase saves: the mapping file, then one file
      per packet. */
  function Generated(c: Config, m: Model): Saved
  {
    Then(One(MappingFile(c, m.mappings)), NsFiles(c, m.packets))
  }

  /** Two optional line lists, both present. */
  function Cat(a: Option<seq<string>>, b: Option<seq<string>>): Option<seq<string>>
  {
    if a.Some? && b.Some? then Some(a.value + b.value) else None
  }

  lemma CatEmpty(x: Option<seq<string>>)
    ensures Cat(Some([]), x) == x
  {
    if x.Some? {
      assert [] + x.value == x.value;
    }
  }

  lemma CatAssoc(a: seq<string>, b: seq<string>, x: Option<seq<string>>)
    ensures Cat(Some(a), Cat(Some(b), x)) == Cat(Some(a + b), x)
  {
    if x.Some? {
      assert a + (b + x.value) == a + b + x.value;
    }
  }

  /** One more id of a table, for a loop that has produced `done` so far. */
  lemma IdLinesStep(client: bool, ns: string, table: IdTable, k: nat, done: seq<string>)
    requires k < |table|
    requires Cat(Some(done), IdLines(client, ns, table[k..])) == IdLines(client, ns, table)
    ensures MappingLine(client, ns, table[k].0, table[k].1).None? ==> IdLines(client, ns, table).None?
    ensures MappingLine(client, ns, table[k].0, table[k].1).Some? ==>
              Cat(Some(done + [MappingLine(client, ns, table[k].0, table[k].1).value]), IdLines(client, ns, table[k + 1..])) ==
              IdLines(client, ns, table)
  {
    assert table[k..][0] == table[k] && table[k..][1..] == table[k + 1..];
    var l := MappingLine(client, ns, table[k].0, table[k].1);
    if l.Some? {
      CatAssoc(done, [l.value], IdLines(client, ns, table[k + 1..]));
    }
  }

  /** One more direction of a namespace, for a loop that has produced `done`. */
  lemma DirLinesStep(client: bool, ns: string, dirs: AList<IdTable>, j: nat, done: seq<string>)
    requires j < |dirs|
    requires Cat(Some(done), DirLines(client, ns, dirs[j..])) == DirLines(client, ns, dirs)
    ensures dirs[j].0 != DirName(client) ==>
              Cat(Some(done), DirLines(client, ns, dirs[j + 1..])) == DirLines(client, ns, dirs)
    ensures dirs[j].0 == DirName(client) && IdLines(client, ns, dirs[j].1).None? ==> DirLines(client, ns, dirs).None?
    ensures dirs[j].0 == DirName(client) && IdLines(client, ns, dirs[j].1).Some? ==>
              Cat(Some(done + IdLines(client, ns, dirs[j].1).value), DirLines(client, ns, dirs[j + 1..])) ==
              DirLines(client, ns, dirs)
  {
    assert dirs[j..][0] == dirs[j] && dirs[j..][1..] == dirs[j + 1..];
    if dirs[j].0 != DirName(client) {
      CatEmpty(DirLines(client, ns, dirs[j + 1..]));
    } else if IdLines(client, ns, dirs[j].1).Some? {
      CatAssoc(done, IdLines(client, ns, dirs[j].1).value, DirLines(client, ns, dirs[j + 1..]));
    }
  }

  /** One more namespace, for a loop that has produced `done`. */
  lemma NsLinesStep(client: bool, nss: AList<AList<IdTable>>, i: nat, done: seq<string>)
    requires i < |nss|
    requires Cat(Some(done), NsLines(client, nss[i..])) == NsLines(client, nss)
    ensures DirLines(client, nss[i].0, nss[i].1).None? ==> NsLines(client, nss).None?
    ensures DirLines(client, nss[i].0, nss[i].1).Some? ==>
              Cat(Some(done + DirLines(client, nss[i].0, nss[i].1).value), NsLines(client, nss[i + 1..])) ==
              NsLines(client, nss)
  {
    assert nss[i..][0] == nss[i] && nss[i..][1..] == nss[i + 1..];
    if DirLines(client, nss[i].0, nss[i].1).Some? {
      CatAssoc(done, DirLines(client, nss[i].0, nss[i].1).value, NsLines(client, nss[i + 1..]));
    }
  }

  /** A registration to write: namespace, id, packet name. */
  type Registered = (string, string, string)

  /** The registrations of one id table, in table order. */
  function IdPairs(ns: string, table: IdTable): (ps: seq<Registered>)
    ensures |ps| == |table|
    ensures forall i :: 0 <= i < |table| ==> ps[i] == (ns, table[i].0, table[i].1)
  {
    seq(|table|, i requires 0 <= i < |table| => (ns, table[i].0, table[i].1))
  }

  function DirPairs(client: bool, ns: string, dirs: AList<IdTable>): seq<Registered>
    decreases |dirs|
  {
    if dirs == [] then []
    else (if dirs[0].0 == DirName(client) then IdPairs(ns, dirs[0].1) else []) + DirPairs(client, ns, dirs[1..])
  }

  /** Every registration of one side, in the order the three nested loops
      visit them: namespace, then direction, then id. */
  function Registrations(client: bool, nss: AList<AList<IdTable>>): seq<Registered>
    decreases |nss|
  {
    if nss == [] then [] else DirPairs(client, nss[0].0, nss[0].1) + Registrations(client, nss[1..])
  }

  /** The lines of a flat list of registrations. */
  function LinesOf(client: bool, ps: seq<Registered>): Option<seq<string>>
    decreases |ps|
  {
    if ps == [] then Some([])
    else
      var l :- MappingLine(client, ps[0].0, ps[0].1, ps[0].2);
      var rest :- LinesOf(client, ps[1..]);
      Some([l] + rest)
  }

  lemma {:induction false} LinesOfAppend(client: bool, a: seq<Registered>, b: seq<Registered>)
    ensures LinesOf(client, a + b) == Cat(LinesOf(client, a), LinesOf(client, b))
    decreases |a|
  {
    if a == [] {
      assert a + b == b;
      if LinesOf(client, b).Some? {
        assert [] + LinesOf(client, b).value == LinesOf(client, b).value;
      }
    } else {
      assert (a + b)[0] == a[0];
      assert (a + b)[1..] == a[1..] + b;
      LinesOfAppend(client, a[1..], b);
      var l := MappingLine(client, a[0].0, a[0].1, a[0].2);
      var tail, other := LinesOf(client, a[1..]), LinesOf(client, b);
      if l.Some? && tail.Some? && other.Some? {
        assert LinesOf(client, a[1..] + b) == Some(tail.value + other.value);
        assert [l.value] + (tail.value + other.value) == ([l.value] + tail.value) + other.value;
      }
    }
  }

  /** The lines of a list of registrations exist exactly when every name in
      it can be formatted, and are then its lines one by one. */
  lemma LinesOfSpec(client: bool, ps: seq<Registered>)
    ensures LinesOf(client, ps).Some? <==> forall i :: 0 <= i < |ps| ==> MappingLine(client, ps[i].0, ps[i].1, ps[i].2).Some?
    ensures LinesOf(client, ps).Some? ==>
              |LinesOf(client, ps).value| == |ps| &&
              forall i :: 0 <= i < |ps| ==> LinesOf(client, ps).value[i] == MappingLine(client, ps[i].0, ps[i].1, ps[i].2).value
  {
    LinesOfSome(client, ps);
    if LinesOf(client, ps).Some? {
      forall i | 0 <= i < |ps|
        ensures LinesOf(client, ps).value[i] == MappingLine(client, ps[i].0, ps[i].1, ps[i].2).value
      {
        LinesOfAt(client, ps, i);
      }
    }
  }

  lemma {:induction false} LinesOfSome(client: bool, ps: seq<Registered>)
    ensures LinesOf(client, ps).Some? <==> forall i :: 0 <= i < |ps| ==> MappingLine(client, ps[i].0, ps[i].1, ps[i].2).Some?
    ensures LinesOf(client, ps).Some? ==> |LinesOf(client, ps).value| == |ps|
    decreases |ps|
  {
    if ps != [] {
      LinesOfSome(client, ps[1..]);
      if MappingLine(client, ps[0].0, ps[0].1, ps[0].2).Some? && LinesOf(client, ps[1..]).Some? {
        forall i | 1 <= i < |ps| ensures MappingLine(client, ps[i].0, ps[i].1, ps[i].2).Some? {
          assert ps[1..][i - 1] == ps[i];
        }
      } else if MappingLine(client, ps[0].0, ps[0].1, ps[0].2).Some? {
        var j :| 0 <= j < |ps[1..]| && MappingLine(client, ps[1..][j].0, ps[1..][j].1, ps[1..][j].2).None?;
        assert ps[1..][j] == ps[j + 1];
      }
    }
  }

  lemma {:induction false} LinesOfAt(client: bool, ps: seq<Registered>, i: nat)
    requires LinesOf(client, ps).Some? && i < |ps|
    ensures i < |LinesOf(client, ps).value| && MappingLine(client, ps[i].0, ps[i].1, ps[i].2).Some?
    ensures LinesOf(client, ps).value[i] == MappingLine(client, ps[i].0, ps[i].1, ps[i].2).value
    decreases i
  {
    LinesOfSome(client, ps);
    var v, rest := LinesOf(client, ps).value, LinesOf(client, ps[1..]);
    assert rest.Some? && v == [MappingLine(client, ps[0].0, ps[0].1, ps[0].2).value] + rest.value;
    if i > 0 {
      LinesOfAt(client, ps[1..], i - 1);
      assert ps[1..][i - 1] == ps[i];
    }
  }

  lemma {:induction false} IdLinesFlat(client: bool, ns: string, table: IdTable)
    ensures IdLines(client, ns, table) == LinesOf(client, IdPairs(ns, table))
    decreases |table|
  {
    if table != [] {
      assert IdPairs(ns, table)[1..] == IdPairs(ns, table[1..]);
      IdLinesFlat(client, ns, table[1..]);
    }
  }

  lemma {:induction false} DirLinesFlat(client: bool, ns: string, dirs: AList<IdTable>)
    ensures DirLines(client, ns, dirs) == LinesOf(client, DirPairs(client, ns, dirs))
    decreases |dirs|
  {
    if dirs != [] {
      var here := if dirs[0].0 == DirName(client) then IdPairs(ns, dirs[0].1) else [];
      IdLinesFlat(client, ns, dirs[0].1);
      DirLinesFlat(client, ns, dirs[1..]);
      LinesOfAppend(client, here, DirPairs(client, ns, dirs[1..]));
    }
  }

  lemma {:induction false} NsLinesFlat(client: bool, nss: AList<AList<IdTable>>)
    ensures NsLines(client, nss) == LinesOf(client, Registrations(client, nss))
    decreases |nss|
  {
    if nss != [] {
      DirLinesFlat(client, nss[0].0, nss[0].1);
      NsLinesFlat(client, nss[1..]);
      LinesOfAppend(client, DirPairs(client, nss[0].0, nss[0].1), Registrations(client, nss[1..]));
    }
  }

  /** The registrations of one side are written in namespace, direction, id
      order, one line each, and exist exactly when every namespace and
      packet name involved can be formatted. */
  lemma RegistrationOrder(client: bool, nss: AList<AList<IdTable>>)
    ensures var ps := Registrations(client, nss);
      && (NsLines(client, nss).Some? <==> forall i :: 0 <= i < |ps| ==> MappingLine(client, ps[i].0, ps[i].1, ps[i].2).Some?)
      && (NsLines(client, nss).Some? ==>
            |NsLines(client, nss).value| == |ps| &&
            forall i :: 0 <= i < |ps| ==> NsLines(client, nss).value[i] == MappingLine(client, ps[i].0, ps[i].1, ps[i].2).value)
  {
    NsLinesFlat(client, nss);
    LinesOfSpec(client, Registrations(client, nss));
  }

  /** With the dictionaries the parser builds, the client side lists each
      namespace's "Client" table and the server side its "Server" table. */
  lemma RegistrationsShaped(client: bool, nss: AList<AList<IdTable>>)
    requires nss != [] && Keys(nss[0].1) == [Client, Server]
    ensures |nss[0].1| == 2
    ensures Registrations(client, nss) ==
              IdPairs(nss[0].0, nss[0].1[if client then 0 else 1].1) + Registrations(client, nss[1..])
  {
    var dirs := nss[0].1;
    assert Keys(dirs)[0] == Client && Keys(dirs)[1] == Server && |dirs| == 2;
    assert dirs[1..][1..] == [];
    if client {
      assert DirPairs(client, nss[0].0, dirs[1..]) == [];
    } else {
      assert DirPairs(client, nss[0].0, dirs[1..]) == IdPairs(nss[0].0, dirs[1].1);
    }
  }

  /** A packet to emit: namespace, direction, packet name, fields. */
  type Emitting = (string, string, string, Fields)

  function NameEntries(ns: string, dir: string, table: PacketTable): (es: seq<Emitting>)
    ensures |es| == |table|
    ensures forall i :: 0 <= i < |table| ==> es[i] == (ns, dir, table[i].0, table[i].1)
  {
    seq(|table|, i requires 0 <= i < |table| => (ns, dir, table[i].0, table[i].1))
  }

  function DirEntries(ns: string, dirs: AList<PacketTable>): seq<Emitting>
    decreases |dirs|
  {
    if dirs == [] then [] else NameEntries(ns, dirs[0].0, dirs[0].1) + DirEntries(ns, dirs[1..])
  }

  /** Every packet, in the order the three nested loops visit them. */
  function PacketEntries(packets: AList<AList<PacketTable>>): seq<Emitting>
    decreases |packets|
  {
    if packets == [] then [] else DirEntries(packets[0].0, packets[0].1) + PacketEntries(packets[1..])
  }

  /** The file of one (namespace, direction, name, fields) entry. */
  function EntryFile(c: Config, e: Emitting): Option<File>
  {
    PacketFile(c, e.0, e.1, e.2, e.3)
  }

  /** Saving a flat list of packets one after the other. */
  function SaveAll(c: Config, es: seq<Emitting>): Saved
    decreases |es|
  {
    if es == [] then Saved([], true)
    else Then(One(EntryFile(c, es[0])), SaveAll(c, es[1..]))
  }

  lemma ThenAssoc(a: Saved, b: Saved, d: Saved)
    ensures Then(Then(a, b), d) == Then(a, Then(b, d))
  {
  }

  /** A run that has saved `done` so far and goes on with `a` and then
      `rest`: either `a` completes and the run goes on, or the run ends
      after `a`'s files. */
  lemma ThenStep(done: seq<File>, a: Saved, rest: Saved)
    ensures a.complete ==> Then(Saved(done, true), Then(a, rest)) == Then(Saved(done + a.files, true), rest)
    ensures !a.complete ==> Then(Saved(done, true), Then(a, rest)) == Saved(done + a.files, false)
  {
    if a.complete {
      assert done + (a.files + rest.files) == done + a.files + rest.files;
    }
  }

  lemma FilesAppend(w: seq<File>, done: seq<File>, more: seq<File>)
    ensures w + done + more == w + (done + more)
  {
  }

  lemma ThenEmpty(a: Saved)
    ensures Then(Saved([], true), a) == a
  {
    assert [] + a.files == a.files;
  }

  lemma ThenDone(done: seq<File>)
    ensures Then(Saved(done, true), Saved([], true)) == Saved(done, true)
  {
    assert done + [] == done;
  }

  /** One more packet of a table, for a loop that has saved `done`. */
  lemma NameFilesStep(c: Config, ns: string, dir: string, table: PacketTable, k: nat, done: seq<File>)
    requires k < |table|
    requires Then(Saved(done, true), NameFiles(c, ns, dir, table[k..])) == NameFiles(c, ns, dir, table)
    ensures var f := PacketFile(c, ns, dir, table[k].0, table[k].1);
            (f.None? ==> NameFiles(c, ns, dir, table) == Saved(done, false)) &&
            (f.Some? ==> Then(Saved(done + [f.value], true), NameFiles(c, ns, dir, table[k + 1..])) == NameFiles(c, ns, dir, table))
  {
    assert table[k..][0] == table[k] && table[k..][1..] == table[k + 1..];
    var f := PacketFile(c, ns, dir, table[k].0, table[k].1);
    ThenStep(done, One(f), NameFiles(c, ns, dir, table[k + 1..]));
    assert done + [] == done;
  }

  /** One more direction of a namespace, for a loop that has saved `done`. */
  lemma DirFilesStep(c: Config, ns: string, dirs: AList<PacketTable>, j: nat, done: seq<File>)
    requires j < |dirs|
    requires Then(Saved(done, true), DirFiles(c, ns, dirs[j..])) == DirFiles(c, ns, dirs)
    ensures var a := NameFiles(c, ns, dirs[j].0, dirs[j].1);
            (!a.complete ==> DirFiles(c, ns, dirs) == Saved(done + a.files, false)) &&
            (a.complete ==> Then(Saved(done + a.files, true), DirFiles(c, ns, dirs[j + 1..])) == DirFiles(c, ns, dirs))
  {
    assert dirs[j..][0] == dirs[j] && dirs[j..][1..] == dirs[j + 1..];
    ThenStep(done, NameFiles(c, ns, dirs[j].0, dirs[j].1), DirFiles(c, ns, dirs[j + 1..]));
  }

  /** One more namespace, for a loop that has saved `done`. */
  lemma NsFilesStep(c: Config, packets: AList<AList<PacketTable>>, i: nat, done: seq<File>)
    requires i < |packets|
    requires Then(Saved(done, true), NsFiles(c, packets[i..])) == NsFiles(c, packets)
    ensures var a := DirFiles(c, packets[i].0, packets[i].1);
            (!a.complete ==> NsFiles(c, packets) == Saved(done + a.files, false)) &&
            (a.complete ==> Then(Saved(done + a.files, true), NsFiles(c, packets[i + 1..])) == NsFiles(c, packets))
  {
    assert packets[i..][0] == packets[i] && packets[i..][1..] == packets[i + 1..];
    ThenStep(done, DirFiles(c, packets[i].0, packets[i].1), NsFiles(c, packets[i + 1..]));
  }

  lemma {:induction false} SaveAllAppend(c: Config, a: seq<Emitting>, b: seq<Emitting>)
    ensures SaveAll(c, a + b) == Then(SaveAll(c, a), SaveAll(c, b))
    decreases |a|
  {
    if a == [] {
      assert a + b == b;
      assert [] + SaveAll(c, b).files == SaveAll(c, b).files;
    } else {
      assert (a + b)[0] == a[0];
      assert (a + b)[1..] == a[1..] + b;
      SaveAllAppend(c, a[1..], b);
      ThenAssoc(One(EntryFile(c, a[0])), SaveAll(c, a[1..]), SaveAll(c, b));
    }
  }

  /** The packet files saved are those of the longest prefix of packets
      whose names can be formatted, in order; the run gets to the end
      exactly when that prefix is everything. */
  lemma SaveAllSpec(c: Config, es: seq<Emitting>)
    ensures |SaveAll(c, es).files| <= |es|
    ensures forall i :: 0 <= i < |SaveAll(c, es).files| ==>
              EntryFile(c, es[i]) == Some(SaveAll(c, es).files[i])
    ensures SaveAll(c, es).complete <==> |SaveAll(c, es).files| == |es|
    ensures !SaveAll(c, es).complete ==>
              var k := |SaveAll(c, es).files|;
              EntryFile(c, es[k]).None?
  {
    SaveAllFiles(c, es);
    SaveAllEnds(c, es);
  }

  lemma SaveAllFiles(c: Config, es: seq<Emitting>)
    ensures |SaveAll(c, es).files| <= |es|
    ensures forall i :: 0 <= i < |SaveAll(c, es).files| ==>
              EntryFile(c, es[i]) == Some(SaveAll(c, es).files[i])
  {
    SaveAllEnds(c, es);
    forall i | 0 <= i < |SaveAll(c, es).files|
      ensures EntryFile(c, es[i]) == Some(SaveAll(c, es).files[i])
    {
      SaveAllAt(c, es, i);
    }
  }

  lemma {:induction false} SaveAllAt(c: Config, es: seq<Emitting>, i: nat)
    requires i < |SaveAll(c, es).files|
    ensures i < |es| && EntryFile(c, es[i]) == Some(SaveAll(c, es).files[i])
    decreases i
  {
    var f := EntryFile(c, es[0]);
    var r, rest := SaveAll(c, es), SaveAll(c, es[1..]);
    assert f.Some? && r.files == [f.value] + rest.files;
    if i > 0 {
      SaveAllAt(c, es[1..], i - 1);
      assert es[1..][i - 1] == es[i];
    }
  }

  lemma {:induction false} SaveAllEnds(c: Config, es: seq<Emitting>)
    ensures SaveAll(c, es).complete <==> |SaveAll(c, es).files| == |es|
    ensures |SaveAll(c, es).files| <= |es|
    ensures !SaveAll(c, es).complete ==> EntryFile(c, es[|SaveAll(c, es).files|]).None?
    decreases |es|
  {
    if es != [] {
      SaveAllEnds(c, es[1..]);
      var f := EntryFile(c, es[0]);
      var r, rest := SaveAll(c, es), SaveAll(c, es[1..]);
      assert r == Then(One(f), rest);
      if f.Some? {
        assert |r.files| == 1 + |rest.files| && r.complete == rest.complete;
        if !r.complete {
          assert es[1..][|rest.files|] == es[|r.files|];
        }
      }
    }
  }

  lemma {:induction false} NameFilesFlat(c: Config, ns: string, dir: string, table: PacketTable)
    ensures NameFiles(c, ns, dir, table) == SaveAll(c, NameEntries(ns, dir, table))
    decreases |table|
  {
    if table != [] {
      assert NameEntries(ns, dir, table)[1..] == NameEntries(ns, dir, table[1..]);
      NameFilesFlat(c, ns, dir, table[1..]);
    }
  }

  lemma {:induction false} DirFilesFlat(c: Config, ns: string, dirs: AList<PacketTable>)
    ensures DirFiles(c, ns, dirs) == SaveAll(c, DirEntries(ns, dirs))
    decreases |dirs|
  {
    if dirs != [] {
      NameFilesFlat(c, ns, dirs[0].0, dirs[0].1);
      DirFilesFlat(c, ns, dirs[1..]);
      SaveAllAppend(c, NameEntries(ns, dirs[0].0, dirs[0].1), DirEntries(ns, dirs[1..]));
    }
  }

  lemma {:induction false} NsFilesFlat(c: Config, packets: AList<AList<PacketTable>>)
    ensures NsFiles(c, packets) == SaveAll(c, PacketEntries(packets))
    decreases |packets|
  {
    if packets != [] {
      DirFilesFlat(c, packets[0].0, packets[0].1);
      NsFilesFlat(c, packets[1..]);
      SaveAllAppend(c, DirEntries(packets[0].0, packets[0].1), PacketEntries(packets[1..]));
    }
  }

  /** The generation phase saves nothing when the mapping file cannot be
      written; otherwise the mapping file first, then the files of the
      longest prefix of packets (namespace, direction, packet order) whose
      names can be formatted, and it gets to the end exactly when that is
      every packet. */
  lemma GeneratedSpec(c: Config, m: Model)
    ensures MappingFile(c, m.mappings).None? ==> Generated(c, m) == Saved([], false)
    ensures MappingFile(c, m.mappings).Some? ==>
              var es := PacketEntries(m.packets);
              var g := Generated(c, m);
              && 1 <= |g.files| <= 1 + |es|
              && g.files[0] == MappingFile(c, m.mappings).value
              && (forall i :: 1 <= i < |g.files| ==>
                    EntryFile(c, es[i - 1]) == Some(g.files[i]))
              && (g.complete <==> |g.files| == 1 + |es|)
              && (!g.complete ==>
                    var k := |g.files| - 1;
                    EntryFile(c, es[k]).None?)
  {
    var es := PacketEntries(m.packets);
    var mf := MappingFile(c, m.mappings);
    if mf.Some? {
      var g, rest := Generated(c, m), SaveAll(c, es);
      NsFilesFlat(c, m.packets);
      assert g == Saved([mf.value] + rest.files, rest.complete);
      SaveAllSpec(c, es);
      assert |g.files| == 1 + |rest.files| && g.files[0] == mf.value;
      forall i | 1 <= i < |g.files|
        ensures EntryFile(c, es[i - 1]) == Some(g.files[i])
      {
        assert g.files[i] == rest.files[i - 1];
      }
    }
  }

  /** Two packets of one direction can be saved to the same path, the later
      file replacing the earlier: `spawn_entity` and `spawnEntity`. */
  lemma PacketPathsCollide(c: Config, ns: string, dir: string, f1: Fields, f2: Fields)
    requires Formatted(ns).Some?
    ensures PacketFile(c, ns, dir, "spawn_entity", f1).Some?
    ensures PacketFile(c, ns, dir, "spawnEntity", f2).Some?
    ensures PacketFile(c, ns, dir, "spawn_entity", f1).value.path == PacketFile(c, ns, dir, "spawnEntity", f2).value.path
  {
    FormattedNotInjective();
  }
}
