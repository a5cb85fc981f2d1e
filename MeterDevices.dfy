/** `MooshimeterDeviceNew`: the bootstrap tree, the sequence-numbered frames
    sent to the meter, the command encoder, and the receive buffer that
    reassembles notifications and dispatches them to the tree's nodes. */
module MeterDevices {
  import opened Bytes
  import opened ConfigNodes
  import opened ConfigNames
  import opened ShortCodes
  import opened ConfigTrees
  import BB = ByteBuffers

  // ---------------------------------------------------------------------
  // The bootstrap tree

  /** The tree the device starts from: a PLAIN root ADMIN over the CRC32,
      TREE and DIAGNOSTIC values. */
  function BootstrapRoot(): Node
  {
    Structural(Plain, "ADMIN", [Value(ValU32, "CRC32"), Value(ValBin, "TREE"), Value(ValStr, "DIAGNOSTIC")])
  }

  /** What `code_list` keeps of a node: the node itself (here its path) and
      its type, which decides how a message for it is read. */
  datatype Entry = Entry(path: Path, ntype: NType)

  /** `code_list` built from `getShortCodeList`: each code with its node. */
  function EntriesOf(root: Node, list: map<int, Path>): (m: map<int, Entry>)
    ensures m.Keys == list.Keys
    ensures forall c :: c in list ==> m[c].path == list[c]
    ensures forall c :: c in list && NodeAtPath(root, list[c]).Some? ==>
      m[c].ntype == NodeAtPath(root, list[c]).value.ntype
  {
    map c | c in list :: Entry(list[c], TypeAt(root, list[c]))
  }

  /** The type of the node at q; every path `getShortCodeList` returns names
      a node, so the PLAIN default is never used. */
  function TypeAt(root: Node, q: Path): NType
  {
    match NodeAtPath(root, q)
    case Some(n) => n.ntype
    case None => Plain
  }

  /** CRC32, TREE and DIAGNOSTIC get the codes 0, 1 and 2, and the short-code
      list maps each code back to its node. */
  lemma {:induction false} BootstrapCodes()
    ensures TreeCodes(BootstrapRoot()) == map[[0] := 0, [1] := 1, [2] := 2]
  {
    BootstrapAddressable();
    assert [[0], [1], [2]] == [[0], [1]] + [[2]] && [[0], [1]] == [[0]] + [[1]] && [[0]] == [] + [[0]];
    CodeMapSnoc([], [0], 0);
    CodeMapSnoc([[0]], [1], 0);
    CodeMapSnoc([[0], [1]], [2], 0);
  }

  /** The short-code list of the bootstrap tree: 0, 1 and 2 name CRC32, TREE
      and DIAGNOSTIC. */
  lemma {:induction false} BootstrapCodeList()
    ensures Inverse(TreeCodes(BootstrapRoot()), PreOrder(BootstrapRoot(), [])) == map[0 := [0], 1 := [1], 2 := [2]]
  {
    BootstrapCodes();
    BootstrapPreOrder();
    FlatInverse(TreeCodes(BootstrapRoot()), PreOrder(BootstrapRoot(), []));
  }

  /** The inverse of the codes of a root with three addressable children. */
  lemma {:induction false} FlatInverse(code: map<Path, int>, vs: seq<Visit>)
    requires code == map[[0] := 0, [1] := 1, [2] := 2]
    requires |vs| == 4 && vs[0].path == [] && vs[1].path == [0] && vs[2].path == [1] && vs[3].path == [2]
    ensures Inverse(code, vs) == map[0 := [0], 1 := [1], 2 := [2]]
  {
    assert Inverse(code, vs[..1]) == map[] by {
      assert vs[..1] == [] + [vs[0]];
      InverseSnoc(code, [], vs[0]);
    }
    assert Inverse(code, vs[..2]) == map[0 := [0]] by {
      assert vs[..2] == vs[..1] + [vs[1]];
      InverseSnoc(code, vs[..1], vs[1]);
    }
    assert Inverse(code, vs[..3]) == map[0 := [0], 1 := [1]] by {
      assert vs[..3] == vs[..2] + [vs[2]];
      InverseSnoc(code, vs[..2], vs[2]);
    }
    assert vs == vs[..3] + [vs[3]];
    InverseSnoc(code, vs[..3], vs[3]);
  }

  /** `code_list` of the bootstrap tree: CRC32 (U32), TREE (BIN) and
      DIAGNOSTIC (STR) under 0, 1 and 2. */
  lemma {:induction false} BootstrapEntries()
    ensures EntriesOf(BootstrapRoot(), map[0 := [0], 1 := [1], 2 := [2]]) ==
      map[0 := Entry([0], ValU32), 1 := Entry([1], ValBin), 2 := Entry([2], ValStr)]
  {
    var root := BootstrapRoot();
    assert TypeAt(root, [0]) == ValU32 && TypeAt(root, [1]) == ValBin && TypeAt(root, [2]) == ValStr;
  }

  /** What the constructor gets from `assignShortCodes` and
      `getShortCodeList` on the bootstrap tree. */
  lemma {:induction false} BootstrapSetup(root: Node, code: map<Path, int>, list: map<int, Path>)
    requires root == BootstrapRoot() && code == TreeCodes(root) && list == Inverse(code, PreOrder(root, []))
    ensures code == map[[0] := 0, [1] := 1, [2] := 2]
    ensures EntriesOf(root, list) == map[0 := Entry([0], ValU32), 1 := Entry([1], ValBin), 2 := Entry([2], ValStr)]
  {
    BootstrapCodes();
    BootstrapCodeList();
    BootstrapEntries();
  }

  lemma {:induction false} BootstrapAddressable()
    ensures Addressable(PreOrder(BootstrapRoot(), [])) == [[0], [1], [2]]
  {
    var vs := PreOrder(BootstrapRoot(), []);
    BootstrapPreOrder();
    assert Addressable(vs[3..]) == [[2]];
    assert Addressable(vs[2..]) == [[1], [2]];
    assert Addressable(vs[1..]) == [[0], [1], [2]];
  }

  lemma {:induction false} InverseSnoc(code: map<Path, int>, vs: seq<Visit>, v: Visit)
    ensures Inverse(code, vs + [v]) ==
      if v.path in code then Inverse(code, vs)[code[v.path] := v.path] else Inverse(code, vs)
  {
    assert (vs + [v])[..|vs|] == vs;
  }

  lemma {:induction false} CodeMapSnoc(order: seq<Path>, p: Path, c: int)
    ensures CodeMap(order + [p], c) == CodeMap(order, c)[p := c + |order|]
  {
    assert (order + [p])[..|order|] == order;
  }

  lemma {:induction false} BootstrapPreOrder()
    ensures PreOrder(BootstrapRoot(), []) ==
      [Visit([], BootstrapRoot()), Visit([0], BootstrapRoot().children[0]),
       Visit([1], BootstrapRoot().children[1]), Visit([2], BootstrapRoot().children[2])]
  {
    var root := BootstrapRoot();
    var cs := root.children;
    LeafPreOrder(cs[0], [0]);
    LeafPreOrder(cs[1], [1]);
    LeafPreOrder(cs[2], [2]);
    assert [] + [0] == [0] && [] + [1] == [1] && [] + [2] == [2];
    assert PreOrderUpTo(root, [], 1) == [Visit([0], cs[0])];
    assert PreOrderUpTo(root, [], 2) == [Visit([0], cs[0]), Visit([1], cs[1])];
    assert PreOrderUpTo(root, [], 3) == [Visit([0], cs[0]), Visit([1], cs[1]), Visit([2], cs[2])];
  }

  /** The parent links and the attached set `assignShortCodes` leaves on the
      bootstrap tree. */
  lemma {:induction false} BootstrapLinks(root: Node, vs: seq<Visit>)
    requires root == BootstrapRoot() && vs == PreOrder(root, [])
    ensures Links(vs) == map[[0] := [], [1] := [], [2] := []]
    ensures PathSet(vs) == {[], [0], [1], [2]}
  {
    BootstrapPreOrder();
    FlatLinks(vs);
    FlatPaths(vs);
  }

  /** The walk over a root with three leaf children. */
  lemma {:induction false} FlatLinks(vs: seq<Visit>)
    requires |vs| == 4 && vs[0].path == [] && |Children(vs[0].node)| == 3
    requires Children(vs[1].node) == [] && Children(vs[2].node) == [] && Children(vs[3].node) == []
    ensures Links(vs) == map[[0] := [], [1] := [], [2] := []]
  {
    LeafLinks(vs[1..]);
    FirstLinksAll([], vs[0].node);
    assert vs[0] == Visit([], vs[0].node);
    assert [] + [0] == [0] && [] + [1] == [1] && [] + [2] == [2];
    assert FirstLinks([], 3) == map[[0] := [], [1] := [], [2] := []];
  }

  /** Leaves set no parent links. */
  lemma {:induction false} LeafLinks(vs: seq<Visit>)
    requires forall i :: 0 <= i < |vs| ==> Children(vs[i].node) == []
    ensures Links(vs) == map[]
  {
    if vs != [] {
      LeafLinks(vs[1..]);
      assert ChildLinks(vs[0]) == map[];
    }
  }

  lemma {:induction false} FlatPaths(vs: seq<Visit>)
    requires |vs| == 4 && vs[0].path == [] && vs[1].path == [0] && vs[2].path == [1] && vs[3].path == [2]
    ensures PathSet(vs) == {[], [0], [1], [2]}
  {
    forall q | q in PathSet(vs) ensures q in {[], [0], [1], [2]} {
      var v :| v in vs && q == v.path;
    }
    assert vs[0] in vs && vs[1] in vs && vs[2] in vs && vs[3] in vs;
  }

  lemma {:induction false} LeafPreOrder(n: Node, p: Path)
    requires Children(n) == []
    ensures PreOrder(n, p) == [Visit(p, n)]
  {
    assert PreOrderUpTo(n, p, 0) == [];
  }

  /** `getNodeAtLongname` matches the first token against the root's
      children, so the bootstrap's own "ADMIN:TREE" finds nothing, while
      "TREE" alone finds the TREE node. */
  lemma {:induction false} BootstrapLookups()
    ensures NodeAtLongname(BootstrapRoot(), "ADMIN:TREE") == NotFound
    ensures NodeAtLongname(BootstrapRoot(), "TREE") == Found([1])
  {
    SplitAdminTree();
    SplitTree();
    AdminIsNoChild();
    TreeIsSecondChild();
    assert Descend(BootstrapRoot().children[1], []) == Found([]);
  }

  /** `getLongName()` of TREE once the bootstrap tree is linked: the root's
      name starts the raw name, so trimming its first character cuts into
      "ADMIN" rather than removing a leading separator. */
  lemma {:induction false} BootstrapLongName(root: Node, parent: map<Path, Path>)
    requires root == BootstrapRoot() && parent == Links(PreOrder(root, []))
    ensures LinksConsistent(parent) && NodeAtPath(root, [1]).Some?
    ensures var raw := LongNameRaw(root, parent, [1], ":");
      |raw| >= 2 && raw[1..|raw| - 1] == "DMIN" + ":" + "TREE"
  {
    ChildLongName(root, 1, parent, ":");
    var raw := LongNameRaw(root, parent, [1], ":");
    assert raw == "ADMIN" + ":" + "TREE" + ":";
    AdminTreeTrimmed(raw);
  }

  lemma {:induction false} AdminTreeTrimmed(raw: string)
    requires raw == "ADMIN" + ":" + "TREE" + ":"
    ensures |raw| >= 2 && raw[1..|raw| - 1] == "DMIN" + ":" + "TREE"
  {
    assert "ADMIN" == ['A'] + "DMIN";
    assert raw == ['A'] + ("DMIN" + ":" + "TREE") + [':'];
    Trimmed('A', "DMIN" + ":" + "TREE", ':', raw);
  }

  /** Deleting the first and the last character of [a] + m + [b] leaves m. */
  lemma {:induction false} Trimmed(a: char, m: string, b: char, s: string)
    requires s == [a] + m + [b]
    ensures |s| >= 2 && s[1..|s| - 1] == m
  {
  }

  /** The raw long name of a child of the root, once linked. */
  lemma {:induction false} ChildLongName(root: Node, j: nat, parent: map<Path, Path>, sep: string)
    requires j < |Children(root)| && parent == Links(PreOrder(root, []))
    ensures LinksConsistent(parent) && NodeAtPath(root, [j]) == Some(Children(root)[j])
    ensures LongNameRaw(root, parent, [j], sep) == NameText(root) + sep + NameText(Children(root)[j]) + sep
  {
    ChildNamesText(root, j, sep);
    LongNameOfLinked(root, [j], sep);
  }

  lemma {:induction false} ChildNamesText(root: Node, j: nat, sep: string)
    requires j < |Children(root)|
    ensures NodeAtPath(root, [j]) == Some(Children(root)[j])
    ensures NamesText(root, [j], sep) == NameText(root) + sep + NameText(Children(root)[j]) + sep
  {
    assert [j][0] == j && [j][1..] == [];
    assert NamesText(Children(root)[j], [], sep) == NameText(Children(root)[j]) + sep;
  }

  lemma {:induction false} SplitTree()
    ensures Split("TREE", ':') == ["TREE"]
  {
    assert "TREE"[0] != ':' && "TREE"[1] != ':' && "TREE"[2] != ':' && "TREE"[3] != ':';
  }

  lemma {:induction false} AdminIsNoChild()
    ensures ChildByName(Children(BootstrapRoot()), "ADMIN") == NotFound
  {
    var cs := Children(BootstrapRoot());
    assert cs[0].name[0] != 'A' && cs[1].name[0] != 'A' && cs[2].name[0] != 'A';
    assert ChildByName(cs[1..][1..][1..], "ADMIN") == NotFound;
    assert ChildByName(cs[1..][1..], "ADMIN") == NotFound;
    assert ChildByName(cs[1..], "ADMIN") == NotFound;
  }

  lemma {:induction false} TreeIsSecondChild()
    ensures ChildByName(Children(BootstrapRoot()), "TREE") == Found([1])
  {
    var cs := Children(BootstrapRoot());
    assert cs[0].name[0] != 'T';
    assert ChildByName(cs[1..], "TREE") == Found([0]);
  }

  /** The command `loadTree` sends finds nothing in the bootstrap tree. */
  lemma {:induction false} AdminTreeUnresolved(root: Node, cmd: string)
    requires root == BootstrapRoot() && cmd == "ADMIN:TREE"
    ensures NodeAtLongname(root, UpperAscii(cmd)) == NotFound
  {
    UpperAdminTree(cmd);
    BootstrapLookups();
  }

  lemma {:induction false} UpperAdminTree(cmd: string)
    requires cmd == "ADMIN:TREE"
    ensures UpperAscii(cmd) == cmd
  {
    NoLowerCase(cmd);
  }

  /** Upper-casing leaves a string without letters a..z unchanged. */
  lemma NoLowerCase(s: string)
    requires forall i :: 0 <= i < |s| ==> !('a' <= s[i] <= 'z')
    ensures UpperAscii(s) == s
  {
  }

  lemma {:induction false} SplitAdminTree()
    ensures Split("ADMIN:TREE", ':') == ["ADMIN", "TREE"]
  {
    var s := "ADMIN:TREE";
    assert s[..5] == "ADMIN" && s[5] == ':' && s[5 + 1..] == "TREE";
    assert ':' !in "ADMIN" && ':' !in "TREE" by {
      assert "ADMIN"[0] != ':' && "ADMIN"[1] != ':' && "ADMIN"[2] != ':' && "ADMIN"[3] != ':' && "ADMIN"[4] != ':';
      assert "TREE"[0] != ':' && "TREE"[1] != ':' && "TREE"[2] != ':' && "TREE"[3] != ':';
    }
    SplitInTwo(s, ':', 5);
  }

  /** A string with exactly one separator, not at its end, splits in two. */
  lemma {:induction false} SplitInTwo(s: string, sep: char, k: nat)
    requires k < |s| - 1 && s[k] == sep && sep !in s[..k] && sep !in s[k + 1..]
    ensures Split(s, sep) == [s[..k], s[k + 1..]]
  {
    FirstIndexIs(s, sep, k);
    assert Fields(s, sep) == [s[..k]] + Fields(s[k + 1..], sep);
  }

  // ---------------------------------------------------------------------
  // Frames to the meter

  /** The frame `sendToMeter` hands to the radio: the low byte of the
      sequence number, then the payload. */
  function Frame(seqN: int, payload: seq<Byte>): (f: seq<Byte>)
    ensures |f| == |payload| + 1 && f[1..] == payload
  {
    [seqN % 256] + payload
  }

  /** `send_seq_n` after k frames sent from s: each frame increments it and
      masks it with 0xFF. */
  function SeqAfter(s: int, k: nat): int
  {
    if k == 0 then s else (SeqAfter(s, k - 1) + 1) % 256
  }

  /** After k frames the sequence number is s + k modulo 256, and it lies in
      0..255 from the first frame on. */
  lemma {:induction false} SeqAfterIsSum(s: int, k: nat)
    ensures SeqAfter(s, k) % 256 == (s + k) % 256
    ensures k >= 1 ==> 0 <= SeqAfter(s, k) < 256
  {
    if k > 0 {
      SeqAfterIsSum(s, k - 1);
      var a := SeqAfter(s, k - 1);
      ModSucc(a, s + k - 1);
    }
  }

  lemma {:induction false} ModSucc(a: int, b: int)
    requires a % 256 == b % 256
    ensures (a + 1) % 256 == (b + 1) % 256
  {
    var r := a % 256;
    assert a == 256 * (a / 256) + r && b == 256 * (b / 256) + r;
    if r < 255 {
      DivModUnique(a + 1, 256, a / 256, r + 1);
      DivModUnique(b + 1, 256, b / 256, r + 1);
    } else {
      DivModUnique(a + 1, 256, a / 256 + 1, 0);
      DivModUnique(b + 1, 256, b / 256 + 1, 0);
    }
  }

  /** 256 frames bring a sequence number in 0..255 back to where it was. */
  lemma {:induction false} SeqWrapsAround(s: int)
    requires 0 <= s < 256
    ensures SeqAfter(s, 256) == s
  {
    SeqAfterIsSum(s, 256);
    DivModUnique(s + 256, 256, 1, s);
    DivModUnique(SeqAfter(s, 256), 256, 0, SeqAfter(s, 256));
  }

  // ---------------------------------------------------------------------
  // The command encoder

  /** The text of a write's payload with what `Integer.parseInt` and
      `Float.parseFloat` (as the float's raw 32 bits) make of it; `None`
      where they throw NumberFormatException. */
  datatype Payload = Payload(text: string, asInt: Option<int>, floatBits: Option<int>)

  /** The exceptions `sendCommand` can throw. */
  datatype Fault = NullDeref | BadNumber | Overflow

  /** What `sendCommand` does after finding a node with a code: hand a
      19-byte array to `sendToMeter`, return early, or throw. */
  datatype Encoded = Send(bytes: seq<Byte>) | NoSend | Thrown(fault: Fault)

  /** The 19-byte array of `sendCommand` once bs is written at its front:
      the bytes never written stay 0. */
  function Pad(bs: seq<Byte>): (r: seq<Byte>)
    requires |bs| <= 19
    ensures |r| == 19 && r[..|bs|] == bs
    ensures forall i :: |bs| <= i < 19 ==> r[i] == 0
  {
    bs + BB.Zeros(19 - |bs|)
  }

  /** `opcode |= 0x80` on a two's-complement int: bit 7 set, every other
      bit kept. */
  function SetWriteBit(code: int): (r: int)
    ensures r % 256 >= 128
    ensures r % 128 == code % 128
  {
    if code % 256 >= 128 then code
    else
      var q, m := code / 256, code % 256;
      DivModUnique(code + 128, 256, q, m + 128);
      DivModUnique(code, 128, 2 * q, m);
      DivModUnique(code + 128, 128, 2 * q + 1, m);
      code + 128
  }

  /** `(byte) c` for each char of s. */
  function LowBytes(s: string): (r: seq<Byte>)
    ensures |r| == |s| && forall i :: 0 <= i < |s| ==> r[i] == (s[i] as int) % 256
  {
    seq(|s|, i requires 0 <= i < |s| => (s[i] as int) % 256)
  }

  /** The number of value bytes a fixed-width type carries: 1 for a chooser
      or 8-bit value, 2 for 16-bit, 4 for 32-bit and float; 0 for the rest. */
  function Width(t: NType): nat
  {
    match t
    case Chooser => 1
    case ValU8 => 1
    case ValS8 => 1
    case ValU16 => 2
    case ValS16 => 2
    case ValU32 => 4
    case ValS32 => 4
    case ValFlt => 4
    case _ => 0
  }

  /** A write of a parsed number: the opcode byte, then the number's low
      n bytes big-endian (`put((byte) x)`, `putShort((short) x)`,
      `putInt(x)`, `putFloat`). */
  function NumberWrite(op: Byte, x: Option<int>, n: nat): (r: Encoded)
    requires n <= 4
  {
    if x.None? then Thrown(BadNumber) else Send(Pad([op] + BigEndian(x.value, n)))
  }

  /** What `sendCommand` hands to `sendToMeter` for a node with this code
      and type: a read (no payload) is the code's low byte; a write sets
      bit 7 of the code and appends the value. ByteBuffer.wrap is
      big-endian, so multi-byte fields are written most significant byte
      first. */
  function CommandBytes(code: int, t: NType, payload: Option<Payload>): (r: Encoded)
    ensures r.Send? ==> |r.bytes| == 19
    ensures payload.None? ==> r.Send?
    ensures payload.Some? && t in {Plain, Link, Copy, ValBin} ==> r == NoSend
    ensures r.Thrown? ==> payload.Some? && (r.fault == Overflow <==> t == ValStr && |payload.value.text| > 16)
  {
    if payload.None? then Send(Pad([code % 256]))
    else
      var p, op := payload.value, SetWriteBit(code) % 256;
      match t
      case Plain => NoSend
      case Link => NoSend
      case Copy => NoSend
      case ValBin => NoSend
      case ValStr =>
        if |p.text| > 16 then Thrown(Overflow)
        else Send(Pad([op] + BigEndian(|p.text|, 2) + LowBytes(p.text)))
      case ValFlt => NumberWrite(op, p.floatBits, 4)
      case _ => NumberWrite(op, p.asInt, Width(t))
  }

  /** The opcode a message starts with: its first byte, sign-extended
      (`(int) b.get()`). */
  function Opcode(bs: seq<Byte>): int
    requires |bs| >= 1
  {
    SignedBigEndian(bs[..1])
  }

  lemma {:induction false} OpcodeOfLowByte(bs: seq<Byte>)
    requires |bs| >= 1 && bs[0] < 128
    ensures Opcode(bs) == bs[0]
  {
    assert FromBigEndian(bs[..1]) == bs[0] * Pow256(0) + FromBigEndian(bs[..1][1..]);
  }

  /** A read is the code alone: the meter finds the code again in byte 0
      and the rest of the 19 bytes is 0. */
  lemma {:induction false} ReadCommandDecodes(code: int, t: NType)
    requires 0 <= code < 128
    ensures CommandBytes(code, t, None).Send?
    ensures var bs := CommandBytes(code, t, None).bytes;
      Opcode(bs) == code && forall i :: 1 <= i < 19 ==> bs[i] == 0
  {
    var bs := CommandBytes(code, t, None).bytes;
    assert bs[..1] == [code];
    OpcodeOfLowByte(bs);
  }

  /** A write of a number to a fixed-width node: byte 0 is the code with bit
      7 set, the next bytes read back big-endian as the number cut to the
      field's width, and the rest stays 0. */
  lemma {:induction false} WriteNumberDecodes(code: int, t: NType, p: Payload)
    requires Width(t) > 0 && (if t == ValFlt then p.floatBits else p.asInt).Some?
    ensures CommandBytes(code, t, Some(p)).Send?
    ensures var bs, w, x := CommandBytes(code, t, Some(p)).bytes, Width(t),
                            (if t == ValFlt then p.floatBits else p.asInt).value;
      bs[0] >= 128 && bs[0] % 128 == code % 128 &&
      SignedBigEndian(bs[1..1 + w]) == Narrow(x, w) &&
      forall i :: 1 + w <= i < 19 ==> bs[i] == 0
  {
    var w, x := Width(t), (if t == ValFlt then p.floatBits else p.asInt).value;
    var op := SetWriteBit(code) % 256;
    var bs := CommandBytes(code, t, Some(p)).bytes;
    assert bs == Pad([op] + BigEndian(x, w));
    assert bs[..1 + w] == [op] + BigEndian(x, w);
    assert bs[1..1 + w] == BigEndian(x, w);
    BigEndianSignedRoundTrip(x, w);
    DivModUnique(op, 128, 1, op - 128);
    DivModUnique(SetWriteBit(code), 128, 2 * (SetWriteBit(code) / 256) + 1, op - 128);
  }

  /** A write to a STR node of at most 16 characters: byte 0 is the code
      with bit 7 set, bytes 1-2 read back as the length, then the low byte
      of each character, then zeros. */
  lemma {:induction false} WriteTextDecodes(code: int, p: Payload)
    requires |p.text| <= 16
    ensures CommandBytes(code, ValStr, Some(p)).Send?
    ensures var bs, n := CommandBytes(code, ValStr, Some(p)).bytes, |p.text|;
      bs[0] >= 128 && SignedBigEndian(bs[1..3]) == n &&
      bs[3..3 + n] == LowBytes(p.text) && forall i :: 3 + n <= i < 19 ==> bs[i] == 0
  {
    var n, op := |p.text|, SetWriteBit(code) % 256;
    var bs := CommandBytes(code, ValStr, Some(p)).bytes;
    var w := [op] + BigEndian(n, 2) + LowBytes(p.text);
    assert bs == Pad(w);
    assert bs[..3 + n] == w;
    assert bs[1..3] == w[1..3] == BigEndian(n, 2);
    assert bs[3..3 + n] == w[3..] == LowBytes(p.text);
    BigEndianSignedRoundTrip(n, 2);
    DivModUnique(n, Pow256(2), 0, n);
  }

  /** `split(" ", 1)` never splits, so `sendCommand` never sees a payload:
      every command is a read. */
  function PayloadText(tokens: seq<string>): Option<string>
  {
    if |tokens| == 2 then Some(tokens[1]) else None
  }

  /** The payload text together with what the parsers make of it. */
  function Parsed(text: Option<string>, parseInt: string -> Option<int>, parseFloat: string -> Option<int>)
    : (p: Option<Payload>)
    ensures p.Some? <==> text.Some?
  {
    match text
    case None => None
    case Some(t) => Some(Payload(t, parseInt(t), parseFloat(t)))
  }

  lemma {:induction false} CommandIsAlwaysARead(cmd: string)
    ensures SplitLimit(cmd, ' ', 1) == [cmd]
    ensures PayloadText(SplitLimit(cmd, ' ', 1)) == None
  {
  }

  /** One more character of the text written after the front. */
  lemma {:induction false} PadTextStep(front: seq<Byte>, text: string, i: nat)
    requires i < |text| && |front| + i + 1 <= 19
    ensures BB.Overwrite(Pad(front + LowBytes(text)[..i]), |front| + i, [(text[i] as int) % 256]) ==
            Pad(front + LowBytes(text)[..i + 1])
  {
    OverwritePad(front + LowBytes(text)[..i], [(text[i] as int) % 256]);
    assert front + LowBytes(text)[..i] + [(text[i] as int) % 256] == front + LowBytes(text)[..i + 1];
  }

  lemma {:induction false} OverwritePad(a: seq<Byte>, c: seq<Byte>)
    requires |a| + |c| <= 19
    ensures BB.Overwrite(Pad(a), |a|, c) == Pad(a + c)
  {
    var x, y := BB.Overwrite(Pad(a), |a|, c), Pad(a + c);
    forall k | 0 <= k < 19 ensures x[k] == y[k] {
      if k < |a| {
        assert y[k] == y[..|a + c|][k] == (a + c)[k];
        assert Pad(a)[k] == Pad(a)[..|a|][k];
      } else if k < |a| + |c| {
        assert y[k] == y[..|a + c|][k] == (a + c)[k];
      }
    }
  }

  /** The tail of `sendCommand` once the node and its code are known: fill a
      fresh 19-byte buffer. */
  method EncodeCommand(code: int, t: NType, payload: Option<Payload>) returns (r: Encoded)
    ensures r == CommandBytes(code, t, payload)
  {
    var arr := new Byte[19](_ => 0);
    var b := new BB.ByteBuffer.Wrap(arr);
    assert b.hb[..] == Pad([]);
    if payload.None? {
      var _ := b.Put(code);
      OverwritePad([], [code % 256]);
      return Send(b.hb[..]);
    }
    var p := payload.value;
    var opcode := SetWriteBit(code);
    var _ := b.Put(opcode);
    OverwritePad([], [opcode % 256]);
    var head := [opcode % 256];
    match t
    case Plain => return NoSend;
    case Link => return NoSend;
    case Copy => return NoSend;
    case ValBin => return NoSend;
    case ValStr =>
      r := PutText(b, head, p.text);
    case ValFlt =>
      r := PutNumber(b, head, p.floatBits, 4);
    case _ =>
      r := PutNumber(b, head, p.asInt, Width(t));
  }

  /** Parse, then `put`/`putShort`/`putInt`/`putFloat` after the opcode. */
  method PutNumber(b: BB.ByteBuffer, head: seq<Byte>, x: Option<int>, n: nat) returns (r: Encoded)
    requires b.Valid() && b.hb.Length == 19 && b.limit == 19 && b.bigEndian
    requires |head| == 1 && b.position == 1 && b.hb[..] == Pad(head) && n <= 4
    modifies b`position, b.hb
    ensures r == NumberWrite(head[0], x, n)
  {
    if x.None? {
      return Thrown(BadNumber);
    }
    var _ := b.PutField(x.value, n);
    OverwritePad(head, BigEndian(x.value, n));
    assert head == [head[0]];
    r := Send(b.hb[..]);
  }

  /** `putShort((short) text.length())`, then `put((byte) c)` for each char;
      the 17th char overflows the 19-byte buffer. */
  method PutText(b: BB.ByteBuffer, head: seq<Byte>, text: string) returns (r: Encoded)
    requires b.Valid() && b.hb.Length == 19 && b.limit == 19 && b.bigEndian
    requires |head| == 1 && b.position == 1 && b.hb[..] == Pad(head)
    modifies b`position, b.hb
    ensures r == if |text| > 16 then Thrown(Overflow) else Send(Pad(head + BigEndian(|text|, 2) + LowBytes(text)))
  {
    var _ := b.PutField(|text|, 2);
    OverwritePad(head, BigEndian(|text|, 2));
    var front := head + BigEndian(|text|, 2);
    var i := 0;
    while i < |text|
      invariant 0 <= i <= |text| && b.Valid() && b.limit == 19 && b.hb.Length == 19
      invariant b.position == 3 + i && b.hb[..] == Pad(front + LowBytes(text)[..i])
    {
      var ok := b.Put(text[i] as int);
      if !ok {
        return Thrown(Overflow);
      }
      PadTextStep(front, text, i);
      i := i + 1;
    }
    assert LowBytes(text)[..i] == LowBytes(text);
    r := Send(b.hb[..]);
  }

  // ---------------------------------------------------------------------
  // Reading the receive buffer

  /** Why `interpretAggregate` stops with bytes left: an opcode not in
      `code_list`, a node type that never notifies, a STR/BIN message not
      complete yet (a return), or a fixed-width message cut short (`get`
      throws BufferUnderflowException). */
  datatype StopReason = UnknownCode | NotANotifier | Incomplete | Underflow

  /** One turn of the loop: stop, or notify `node` with `value` and drop
      `used` bytes from the front. */
  datatype Reading = Stop(why: StopReason) | Take(used: nat, node: Path, value: JValue)

  /** A fixed-width value of n bytes after the opcode, boxed as `get`,
      `getShort` or `getInt` box it. */
  function FixedField(q: Path, n: nat, bs: seq<Byte>): (r: Reading)
    requires n == 1 || n == 2 || n == 4
  {
    if |bs| < 1 + n then Stop(Underflow)
    else
      var x := SignedBigEndian(bs[1..1 + n]);
      Take(1 + n, q, Boxed(n, x))
  }

  /** A value read by `get`, `getShort` or `getInt`, boxed as the Byte,
      Short or Integer `notify` receives. */
  function Boxed(n: nat, x: int): JValue
  {
    if n == 1 then JByte(x) else if n == 2 then JShort(x) else JInt(x)
  }

  /** A STR or BIN message: a signed 16-bit length after the opcode; the
      node is notified with the whole buffer, and only the opcode and the
      length are consumed. */
  function TextField(q: Path, bin: bool, bs: seq<Byte>): (r: Reading)
  {
    if |bs| < 3 then Stop(Underflow)
    else if |bs| - 3 < SignedBigEndian(bs[1..3]) then Stop(Incomplete)
    else Take(3, q, if bin then JBytes(bs) else JString(bs))
  }

  /** What the message at the front of bs does, given the entry its opcode
      names. */
  function ReadingFor(e: Entry, bs: seq<Byte>): (r: Reading)
  {
    match e.ntype
    case Plain => Stop(NotANotifier)
    case Link => Stop(NotANotifier)
    case Copy => Stop(NotANotifier)
    case ValStr => TextField(e.path, false, bs)
    case ValBin => TextField(e.path, true, bs)
    case ValFlt => if |bs| < 5 then Stop(Underflow) else Take(5, e.path, JFloat(bs[1..5]))
    case _ => FixedField(e.path, Width(e.ntype), bs)
  }

  /** The message at the front of a non-empty receive buffer. */
  function Peek(codes: map<int, Entry>, bs: seq<Byte>): (r: Reading)
    requires |bs| >= 1
    ensures r == Stop(UnknownCode) <==> Opcode(bs) !in codes
    ensures r.Take? ==> Opcode(bs) in codes && r.node == codes[Opcode(bs)].path && 2 <= r.used <= |bs|
    ensures r.Take? ==> r.used == (if codes[Opcode(bs)].ntype in {ValStr, ValBin} then 3
                                   else 1 + Width(codes[Opcode(bs)].ntype))
    ensures r == Stop(NotANotifier) <==> Opcode(bs) in codes && codes[Opcode(bs)].ntype in {Plain, Link, Copy}
    ensures r == Stop(Incomplete) ==>
      codes[Opcode(bs)].ntype in {ValStr, ValBin} && |bs| >= 3 && |bs| - 3 < SignedBigEndian(bs[1..3])
  {
    var op := Opcode(bs);
    if op !in codes then Stop(UnknownCode) else ReadingFor(codes[op], bs)
  }

  /** A handler call made for this node with this value. */
  datatype Note = Note(node: Path, value: JValue)

  /** The state a run of `interpretAggregate` leaves: the bytes left, the
      notifications made in order, and why it stopped (`None` when the
      buffer ran empty). */
  datatype Drained = Drained(rest: seq<Byte>, notes: seq<Note>, stop: Option<StopReason>)

  /** `interpretAggregate` on bs: take messages off the front until the
      buffer is empty or a message stops the loop. */
  function Drain(codes: map<int, Entry>, bs: seq<Byte>): (d: Drained)
    ensures d.stop.None? <==> d.rest == []
    decreases |bs|
  {
    if bs == [] then Drained([], [], None)
    else
      match Peek(codes, bs)
      case Stop(why) => Drained(bs, [], Some(why))
      case Take(k, q, v) =>
        var d := Drain(codes, bs[k..]);
        Drained(d.rest, [Note(q, v)] + d.notes, d.stop)
  }

  /** What the loop leaves is the tail of what it was given. */
  lemma {:induction false} DrainLeavesSuffix(codes: map<int, Entry>, bs: seq<Byte>)
    ensures var d := Drain(codes, bs); |d.rest| <= |bs| && d.rest == bs[|bs| - |d.rest|..]
    decreases |bs|
  {
    if bs != [] {
      match Peek(codes, bs)
      case Stop(_) =>
      case Take(k, _, _) =>
        DrainLeavesSuffix(codes, bs[k..]);
        var r := Drain(codes, bs[k..]).rest;
        assert bs[k..][|bs[k..]| - |r|..] == bs[|bs| - |r|..];
    }
  }

  /** The loop stops at a message that does not go through, and keeps it. */
  lemma {:induction false} DrainStopsAtPeek(codes: map<int, Entry>, bs: seq<Byte>)
    ensures var d := Drain(codes, bs); d.stop.Some? ==> Peek(codes, d.rest) == Stop(d.stop.value)
    decreases |bs|
  {
    if bs != [] {
      match Peek(codes, bs)
      case Stop(_) =>
      case Take(k, _, _) => DrainStopsAtPeek(codes, bs[k..]);
    }
  }

  function Prepend(notes: seq<Note>, d: Drained): Drained
  {
    Drained(d.rest, notes + d.notes, d.stop)
  }

  lemma {:induction false} PrependEmpty(notes: seq<Note>, d: Drained)
    requires d.notes == []
    ensures Prepend(notes, d) == Drained(d.rest, notes, d.stop)
  {
    assert notes + [] == notes;
  }

  lemma {:induction false} PrependSnoc(notes: seq<Note>, n: Note, d: Drained)
    ensures Prepend(notes, Prepend([n], d)) == Prepend(notes + [n], d)
  {
    AppendAssoc(notes, [n], d.notes);
  }

  /** Running the loop again on what it left does nothing: a stopped buffer
      stays stopped until more bytes arrive. */
  lemma {:induction false} DrainIdempotent(codes: map<int, Entry>, bs: seq<Byte>)
    ensures var d := Drain(codes, bs); Drain(codes, d.rest) == Drained(d.rest, [], d.stop)
    decreases |bs|
  {
    if bs != [] {
      match Peek(codes, bs)
      case Stop(_) =>
      case Take(k, _, _) => DrainIdempotent(codes, bs[k..]);
    }
  }

  /** A first byte of 0x80 or more is a negative opcode once sign-extended;
      no code is negative, so the loop stops at once and keeps every byte. */
  lemma {:induction false} HighByteStops(codes: map<int, Entry>, bs: seq<Byte>)
    requires |bs| >= 1 && bs[0] >= 128
    requires forall c :: c in codes ==> c >= 0
    ensures Drain(codes, bs) == Drained(bs, [], Some(UnknownCode))
  {
    SignIsTopBit(bs[..1]);
  }

  /** A complete STR or BIN message notifies its node with the whole buffer
      and drops only the opcode and the length: the string's own bytes are
      read next as if they were opcodes. */
  lemma {:induction false} TextBodyReread(codes: map<int, Entry>, bs: seq<Byte>)
    requires |bs| >= 3 && Opcode(bs) in codes && codes[Opcode(bs)].ntype in {ValStr, ValBin}
    requires SignedBigEndian(bs[1..3]) <= |bs| - 3
    ensures var e := codes[Opcode(bs)];
      Drain(codes, bs) ==
        Prepend([Note(e.path, if e.ntype == ValBin then JBytes(bs) else JString(bs))], Drain(codes, bs[3..]))
  {
  }

  /** A message the meter sends for a fixed-width node: its code (0..127)
      and the value, whose low bytes follow big-endian. */
  datatype Sample = Sample(code: int, x: int)

  predicate Sendable(codes: map<int, Entry>, s: Sample)
  {
    0 <= s.code < 128 && s.code in codes && Width(codes[s.code].ntype) > 0
  }

  function SampleBytes(codes: map<int, Entry>, s: Sample): (bs: seq<Byte>)
    requires Sendable(codes, s)
    ensures |bs| == 1 + Width(codes[s.code].ntype)
  {
    [s.code] + BigEndian(s.x, Width(codes[s.code].ntype))
  }

  function Stream(codes: map<int, Entry>, ss: seq<Sample>): seq<Byte>
    requires forall i :: 0 <= i < |ss| ==> Sendable(codes, ss[i])
  {
    if ss == [] then [] else SampleBytes(codes, ss[0]) + Stream(codes, ss[1..])
  }

  /** The value the node receives for a sample: the value cut to the field's
      width and sign-extended, boxed by width; a float as its four bytes. */
  function Delivered(t: NType, x: int): JValue
    requires Width(t) > 0
  {
    if t == ValFlt then JFloat(BigEndian(x, 4))
    else if Width(t) == 1 then JByte(Narrow(x, 1))
    else if Width(t) == 2 then JShort(Narrow(x, 2))
    else JInt(Narrow(x, 4))
  }

  function Notes(codes: map<int, Entry>, ss: seq<Sample>): seq<Note>
    requires forall i :: 0 <= i < |ss| ==> Sendable(codes, ss[i])
  {
    if ss == [] then []
    else
      assert Sendable(codes, ss[0]);
      [Note(codes[ss[0].code].path, Delivered(codes[ss[0].code].ntype, ss[0].x))] + Notes(codes, ss[1..])
  }

  /** The front sample of a stream is read back whole, whatever follows it. */
  lemma {:induction false} PeekSample(codes: map<int, Entry>, s: Sample, tail: seq<Byte>)
    requires Sendable(codes, s)
    ensures var e, bs := codes[s.code], SampleBytes(codes, s) + tail;
      Peek(codes, bs) == Take(1 + Width(e.ntype), e.path, Delivered(e.ntype, s.x))
  {
    var e, bs := codes[s.code], SampleBytes(codes, s) + tail;
    var w := Width(e.ntype);
    OpcodeOfLowByte(bs);
    assert bs[1..1 + w] == BigEndian(s.x, w);
    BigEndianSignedRoundTrip(s.x, w);
  }

  /** A stream of complete fixed-width messages is read to the end: each
      node named is notified, in order, with the value the meter sent, and
      the buffer is left empty. */
  lemma {:induction false} StreamDrains(codes: map<int, Entry>, ss: seq<Sample>)
    requires forall i :: 0 <= i < |ss| ==> Sendable(codes, ss[i])
    ensures Drain(codes, Stream(codes, ss)) == Drained([], Notes(codes, ss), None)
  {
    if ss != [] {
      var head, tail := SampleBytes(codes, ss[0]), Stream(codes, ss[1..]);
      PeekSample(codes, ss[0], tail);
      assert (head + tail)[|head|..] == tail;
      StreamDrains(codes, ss[1..]);
    }
  }

  /** The handlers registered on q in a `notify_handlers` map. */
  function HandlerList(hm: map<Path, seq<HandlerId>>, q: Path): seq<HandlerId>
  {
    if q in hm then hm[q] else []
  }

  /** `last_value` after the notes, in order. */
  function Record(lv: map<Path, JValue>, notes: seq<Note>): map<Path, JValue>
  {
    if notes == [] then lv
    else
      var n := notes[|notes| - 1];
      Record(lv, notes[..|notes| - 1])[n.node := n.value]
  }

  lemma {:induction false} RecordSnoc(lv: map<Path, JValue>, notes: seq<Note>, n: Note)
    ensures Record(lv, notes + [n]) == Record(lv, notes)[n.node := n.value]
  {
    assert (notes + [n])[..|notes|] == notes;
  }

  /** The handler calls the notes make, in order. */
  function Calls(hm: map<Path, seq<HandlerId>>, notes: seq<Note>): seq<Event>
  {
    if notes == [] then []
    else
      var n := notes[|notes| - 1];
      Calls(hm, notes[..|notes| - 1]) + HandlerCalls(HandlerList(hm, n.node), n.node, n.value)
  }

  lemma {:induction false} CallsSnoc(hm: map<Path, seq<HandlerId>>, notes: seq<Note>, n: Note)
    ensures Calls(hm, notes + [n]) == Calls(hm, notes) + HandlerCalls(HandlerList(hm, n.node), n.node, n.value)
  {
    assert (notes + [n])[..|notes|] == notes;
  }

  /** One more note adds its handler calls at the end of the events. */
  lemma {:induction false} EventsStep(ev0: seq<Event>, hm: map<Path, seq<HandlerId>>, notes: seq<Note>, n: Note, ev: seq<Event>)
    requires ev == ev0 + Calls(hm, notes)
    ensures ev + HandlerCalls(HandlerList(hm, n.node), n.node, n.value) == ev0 + Calls(hm, notes + [n])
  {
    CallsSnoc(hm, notes, n);
    AppendAssoc(ev0, Calls(hm, notes), HandlerCalls(HandlerList(hm, n.node), n.node, n.value));
  }

  // ---------------------------------------------------------------------
  // The device

  class MeterDevice {
    var sendSeq: int
    var recvBuf: seq<Byte>
    const tree: ConfigTree
    /** `code_list`, built once, in the constructor. */
    var codeList: map<int, Entry>
    /** The frames passed to the radio so far, in order. */
    var sent: seq<seq<Byte>>

    /** The constructor: build the bootstrap tree, assign its codes and keep
        its short-code list. */
    constructor ()
      ensures fresh(tree) && tree.root == BootstrapRoot()
      ensures tree.code == map[[0] := 0, [1] := 1, [2] := 2]
      ensures tree.parent == map[[0] := [], [1] := [], [2] := []] && tree.attached == {[], [0], [1], [2]}
      ensures tree.lastValue == map[] && tree.handlers == map[] && tree.events == []
      ensures codeList == map[0 := Entry([0], ValU32), 1 := Entry([1], ValBin), 2 := Entry([2], ValStr)]
      ensures sendSeq == 0 && recvBuf == [] && sent == []
    {
      sendSeq := 0;
      recvBuf := [];
      sent := [];
      var t, list := Bootstrap();
      tree := t;
      codeList := list;
    }

    /** `new ConfigTree(root)` on the bootstrap tree, `assignShortCodes` and
        `getShortCodeList`, as the constructor runs them. */
    static method Bootstrap() returns (t: ConfigTree, codeList: map<int, Entry>)
      ensures fresh(t) && t.root == BootstrapRoot()
      ensures t.code == map[[0] := 0, [1] := 1, [2] := 2]
      ensures t.parent == map[[0] := [], [1] := [], [2] := []] && t.attached == {[], [0], [1], [2]}
      ensures t.lastValue == map[] && t.handlers == map[] && t.events == []
      ensures codeList == map[0 := Entry([0], ValU32), 1 := Entry([1], ValBin), 2 := Entry([2], ValStr)]
    {
      var root := BootstrapRoot();
      t := Assigned(root);
      var list := CodeList(t);
      BootstrapSetup(root, t.code, list);
      BootstrapLinks(root, PreOrder(root, []));
      codeList := EntriesOf(root, list);
    }

    /** A fresh tree over root with its short codes assigned. */
    static method Assigned(root: Node) returns (t: ConfigTree)
      ensures fresh(t) && t.root == root && t.code == TreeCodes(root)
      ensures t.parent == Links(PreOrder(root, [])) && t.attached == PathSet(PreOrder(root, []))
      ensures t.lastValue == map[] && t.handlers == map[] && t.events == []
    {
      t := new ConfigTree(root);
      t.AssignShortCodes();
    }

    /** The list `getShortCodeList` returns for t. */
    static method CodeList(t: ConfigTree) returns (list: map<int, Path>)
      ensures list == Inverse(t.code, PreOrder(t.root, []))
    {
      list := t.GetShortCodeList();
    }

    /** `sendToMeter`: a payload over 19 bytes is dropped; otherwise the
        frame goes out behind the sequence number, which then advances
        modulo 256. */
    method SendToMeter(payload: seq<Byte>)
      modifies this`sendSeq, this`sent
      ensures |payload| > 19 ==> sendSeq == old(sendSeq) && sent == old(sent)
      ensures |payload| <= 19 ==>
        sendSeq == SeqAfter(old(sendSeq), 1) && 0 <= sendSeq < 256 &&
        sent == old(sent) + [Frame(old(sendSeq), payload)]
    {
      if |payload| > 19 {
        return;
      }
      var buf := new Byte[|payload| + 1](_ => 0);
      buf[0] := sendSeq % 256;
      // `send_seq_n++; send_seq_n &= 0xFF`: masking a two's-complement int
      // with 0xFF is taking it modulo 256
      sendSeq := (sendSeq + 1) % 256;
      var i := 0;
      while i < |payload|
        invariant 0 <= i <= |payload|
        invariant buf[0] == old(sendSeq) % 256 && buf[1..i + 1] == payload[..i]
        modifies buf
      {
        buf[i + 1] := payload[i];
        i := i + 1;
      }
      assert buf[..] == [old(sendSeq) % 256] + payload;
      sent := sent + [buf[..]];
    }

    /** `sendCommand`: the whole command upper-cased is the node's long
        name; a name that does not resolve, or a node without a code, sends
        nothing; otherwise the read of that code goes out. */
    method SendCommand(cmd: string, parseInt: string -> Option<int>, parseFloat: string -> Option<int>)
      returns (r: Encoded)
      modifies this`sendSeq, this`sent
      ensures var found := NodeAtLongname(tree.root, UpperAscii(cmd));
        (found.NotFound? ==> r == NoSend) &&
        (found.NullName? ==> r == Thrown(NullDeref)) &&
        (found.Found? && found.path !in tree.code ==> r == NoSend) &&
        (found.Found? && found.path in tree.code ==> r == Send(Pad([tree.code[found.path] % 256])))
      ensures r.Send? ==> sendSeq == SeqAfter(old(sendSeq), 1) && sent == old(sent) + [Frame(old(sendSeq), r.bytes)]
      ensures !r.Send? ==> sendSeq == old(sendSeq) && sent == old(sent)
    {
      var tokens := SplitLimit(cmd, ' ', 1);
      var nodeName := UpperAscii(tokens[0]);
      var payloadText := PayloadText(tokens);
      var found := tree.GetNodeAtLongname(nodeName);
      if found.NotFound? {
        return NoSend;
      }
      if found.NullName? {
        return Thrown(NullDeref);
      }
      var q := found.path;
      if q !in tree.code {
        // the node's code is -1
        return NoSend;
      }
      var payload := Parsed(payloadText, parseInt, parseFloat);
      r := EncodeCommand(tree.code[q], NodeAtPath(tree.root, q).value.ntype, payload);
      if r.Send? {
        SendToMeter(r.bytes);
      }
    }

    /** `loadTree`: ask for ADMIN:TREE. On the bootstrap tree that name does
        not resolve, so nothing is sent. */
    method LoadTree() returns (r: Encoded)
      modifies this`sendSeq, this`sent
      ensures tree.root == BootstrapRoot() ==> r == NoSend && sendSeq == old(sendSeq) && sent == old(sent)
    {
      var cmd := "ADMIN:TREE";
      r := SendCommand(cmd, _ => None, _ => None);
      if tree.root == BootstrapRoot() {
        AdminTreeUnresolved(tree.root, cmd);
      }
    }

    /** One turn of the loop of `interpretAggregate`: copy the buffer into a
        fresh ByteBuffer, read the message at its front, notify its node and
        drop the bytes read. */
    method Advance() returns (stop: Option<StopReason>)
      requires recvBuf != []
      modifies this`recvBuf, tree`lastValue, tree`events
      ensures var s := Peek(codeList, old(recvBuf));
        if s.Stop? then
          stop == Some(s.why) && recvBuf == old(recvBuf) &&
          tree.lastValue == old(tree.lastValue) && tree.events == old(tree.events)
        else
          stop == None && recvBuf == old(recvBuf)[s.used..] &&
          tree.lastValue == old(tree.lastValue)[s.node := s.value] &&
          tree.events == old(tree.events) + HandlerCalls(HandlerList(tree.handlers, s.node), s.node, s.value)
      ensures stop.Some? ==> Drain(codeList, old(recvBuf)) == Drained(recvBuf, [], stop)
      ensures stop.None? ==> var s := Peek(codeList, old(recvBuf));
        Drain(codeList, old(recvBuf)) == Prepend([Note(s.node, s.value)], Drain(codeList, recvBuf))
    {
      var s := ReadFront(codeList, recvBuf);
      if s.Stop? {
        return Some(s.why);
      }
      tree.Notify(s.node, s.value);
      var rest := recvBuf;
      var i := 0;
      while i < s.used
        invariant 0 <= i <= s.used && rest == old(recvBuf)[i..]
      {
        rest := rest[1..];
        i := i + 1;
      }
      recvBuf := rest;
      return None;
    }

    /** Copy bs into a fresh ByteBuffer, read the opcode and then the
        message it names. */
    static method ReadFront(codes: map<int, Entry>, bs: seq<Byte>) returns (r: Reading)
      requires bs != []
      ensures r == Peek(codes, bs)
    {
      var bytes := new Byte[|bs|](_ => 0);
      var b := new BB.ByteBuffer.Wrap(bytes);
      var _ := b.PutBytes(bs);
      b.Rewind();
      assert b.hb[..] == bs;
      var opcode := b.GetField(1);
      assert b.hb[..][..1] == b.hb[0..1];
      if opcode.value !in codes {
        return Stop(UnknownCode);
      }
      r := ReadMessage(b, codes[opcode.value]);
    }

    /** The `switch` on the node's type, after the opcode. */
    static method ReadMessage(b: BB.ByteBuffer, e: Entry) returns (r: Reading)
      requires b.Valid() && b.position == 1 && b.limit == b.hb.Length && b.bigEndian
      modifies b`position
      ensures r == ReadingFor(e, b.hb[..])
      ensures r.Take? ==> b.position == r.used
    {
      match e.ntype
      case Plain => return Stop(NotANotifier);
      case Link => return Stop(NotANotifier);
      case Copy => return Stop(NotANotifier);
      case ValStr => r := ReadText(b, e.path, false);
      case ValBin => r := ReadText(b, e.path, true);
      case ValFlt =>
        var x := b.GetBytes(4);
        if x.None? {
          return Stop(Underflow);
        }
        r := Take(5, e.path, JFloat(x.value));
      case _ =>
        var n := Width(e.ntype);
        var x := b.GetField(n);
        if x.None? {
          return Stop(Underflow);
        }
        r := Take(1 + n, e.path, Boxed(n, x.value));
    }

    /** The STR and BIN cases: read the signed length, wait for the rest,
        and hand over the whole array. */
    static method ReadText(b: BB.ByteBuffer, q: Path, bin: bool) returns (r: Reading)
      requires b.Valid() && b.position == 1 && b.limit == b.hb.Length && b.bigEndian
      modifies b`position
      ensures r == TextField(q, bin, b.hb[..])
      ensures r.Take? ==> b.position == r.used
    {
      var expecting := b.GetField(2);
      if expecting.None? {
        return Stop(Underflow);
      }
      if b.Remaining() < expecting.value {
        return Stop(Incomplete);
      }
      r := Take(3, q, if bin then JBytes(b.hb[..]) else JString(b.hb[..]));
    }

    /** `interpretAggregate`: take messages off the front of the receive
        buffer until it is empty or a message stops the loop. Every turn
        that does not stop drops at least two bytes. */
    method InterpretAggregate() returns (stop: Option<StopReason>)
      modifies this`recvBuf, tree`lastValue, tree`events
      ensures var d := Drain(codeList, old(recvBuf));
        recvBuf == d.rest && stop == d.stop &&
        tree.lastValue == Record(old(tree.lastValue), d.notes) &&
        tree.events == old(tree.events) + Calls(tree.handlers, d.notes)
    {
      ghost var notes: seq<Note> := [];
      stop := None;
      while recvBuf != []
        invariant Drain(codeList, old(recvBuf)) == Prepend(notes, Drain(codeList, recvBuf))
        invariant tree.lastValue == Record(old(tree.lastValue), notes)
        invariant tree.events == old(tree.events) + Calls(tree.handlers, notes)
        invariant stop == None
        decreases |recvBuf|
      {
        ghost var before, evBefore := recvBuf, tree.events;
        stop := Advance();
        if stop.Some? {
          PrependEmpty(notes, Drain(codeList, recvBuf));
          return;
        }
        ghost var s := Peek(codeList, before);
        ghost var n := Note(s.node, s.value);
        PrependSnoc(notes, n, Drain(codeList, recvBuf));
        RecordSnoc(old(tree.lastValue), notes, n);
        EventsStep(old(tree.events), tree.handlers, notes, n, evBefore);
        notes := notes + [n];
      }
      PrependEmpty(notes, Drain(codeList, recvBuf));
    }
  }
}
