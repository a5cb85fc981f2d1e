/** The nested list encoding of a node (`packToEndOfList` and
    `unpackFromFrontOfList`), at the level of decoded MessagePack items. */
module ConfigPacking {
  import opened ConfigNodes

  /** A decoded MessagePack item: an integer, a raw string or an array. */
  datatype Item = IInt(i: int) | IStr(s: string) | IList(items: seq<Item>)

  /** The exceptions decoding can raise. */
  datatype DecodeError =
    | ListExhausted   // `remove(0)` or `get(0)` on an empty list
    | NotAnInteger    // `asIntegerValue` on another kind of item
    | IntOutOfRange   // `getInt` on an integer outside the 32-bit range
    | NotAString      // `asRawValue` on another kind of item
    | NotAList        // `asArrayValue` on another kind of item
    | UnknownTag      // `NodesByType[tag]` with a tag outside 0..12

  datatype Result<T> = Ok(value: T) | Err(error: DecodeError)

  predicate InInt32(x: int)
  {
    -0x8000_0000 <= x < 0x8000_0000
  }

  function ItemSize(it: Item): nat
  {
    match it
    case IList(items) => 1 + ListSize(items)
    case _ => 1
  }

  function ListSize(l: seq<Item>): (z: nat)
    ensures z >= |l|
  {
    if l == [] then 0 else ItemSize(l[0]) + ListSize(l[1..])
  }

  lemma {:induction false} ListSizeSuffix(l: seq<Item>, k: nat)
    requires k <= |l|
    ensures ListSize(l[k..]) + k <= ListSize(l)
  {
    if k > 0 {
      assert l[k..] == l[1..][k - 1..];
      ListSizeSuffix(l[1..], k - 1);
    }
  }

  lemma {:induction false} ItemSizeBound(l: seq<Item>, i: nat)
    requires i < |l|
    ensures ItemSize(l[i]) <= ListSize(l)
  {
    if i > 0 {
      assert l[i] == l[1..][i - 1];
      ItemSizeBound(l[1..], i - 1);
    }
  }

  /** `packToEndOfList`: what a node appends to the list. */
  function Packed(n: Node): (l: seq<Item>)
    ensures |l| >= 2
    decreases n, 1
  {
    match n
    case Structural(t, name, _) => [IInt(Tag(t)), IStr(name), IList(PackedChildren(n, 0))]
    case Ref(t, path) => [IInt(Tag(t)), IStr(path)]
    case Value(t, name) => [IInt(Tag(t)), IStr(name)]
  }

  /** The encodings of the children of n from the j-th on, one after the
      other. */
  function PackedChildren(n: Node, j: nat): seq<Item>
    requires j <= |Children(n)|
    decreases n, 0, |Children(n)| - j
  {
    if j == |Children(n)| then [] else Packed(n.children[j]) + PackedChildren(n, j + 1)
  }

  /** `unpackFromFrontOfList` of a node that `nodeFactory` built for type t:
      the decoded node and how many items it took from the front of l. The
      tag read first is compared with t only to log a mismatch, so its value
      has no effect. */
  function Unpack(t: NType, l: seq<Item>): (r: Result<(Node, nat)>)
    ensures r.Ok? ==> 2 <= r.value.1 <= |l|
    ensures r.Ok? ==> r.value.0.ntype == t && ClassOf(t) == NodeClassOf(r.value.0)
    decreases ListSize(l), 1
  {
    if l == [] then Err(ListExhausted)
    else if !l[0].IInt? then Err(NotAnInteger)
    else if !InInt32(l[0].i) then Err(IntOutOfRange)
    else if |l| < 2 then Err(ListExhausted)
    else if !l[1].IStr? then Err(NotAString)
    else match ClassOf(t)
      case StructuralClass =>
        if |l| < 3 then Err(ListExhausted)
        else if !l[2].IList? then Err(NotAList)
        else
          ItemSizeBound(l, 2);
          (match UnpackChildren(l[2].items)
           case Ok(cs) => Ok((Structural(t, l[1].s, cs), 3))
           case Err(e) => Err(e))
      case RefClass => Ok((Ref(t, l[1].s), 2))
      case ValueClass => Ok((Value(t, l[1].s), 2))
  }

  /** The while loop of the structural decoder: peek at the next tag, build
      the node `nodeFactory` makes for it, let it consume its items, repeat
      until the list is empty. */
  function UnpackChildren(cp: seq<Item>): Result<seq<Node>>
    decreases ListSize(cp), 2
  {
    if cp == [] then Ok([])
    else if !cp[0].IInt? then Err(NotAnInteger)
    else if !InInt32(cp[0].i) then Err(IntOutOfRange)
    else match TypeOfTag(cp[0].i)
      case None => Err(UnknownTag)
      case Some(ct) =>
        match Unpack(ct, cp)
        case Err(e) => Err(e)
        case Ok((c, k)) =>
          ListSizeSuffix(cp, k);
          match UnpackChildren(cp[k..])
          case Ok(cs) => Ok([c] + cs)
          case Err(e) => Err(e)
  }

  function NodeClassOf(n: Node): NodeClass
  {
    match n
    case Structural(_, _, _) => StructuralClass
    case Ref(_, _) => RefClass
    case Value(_, _) => ValueClass
  }

  /** `ConfigTree.unpack` after decompression and MessagePack decoding: the
      first item's tag picks the root's class, the root decodes from the front
      of the list, and whatever follows it is ignored. */
  function UnpackTree(l: seq<Item>): Result<Node>
  {
    if l == [] then Err(ListExhausted)
    else if !l[0].IInt? then Err(NotAnInteger)
    else if !InInt32(l[0].i) then Err(IntOutOfRange)
    else match TypeOfTag(l[0].i)
      case None => Err(UnknownTag)
      case Some(t) =>
        match Unpack(t, l)
        case Ok((root, _)) => Ok(root)
        case Err(e) => Err(e)
  }

  /** Round trip: a well-formed node decodes from its own encoding, whatever
      follows it, taking exactly the items it packed. */
  lemma {:induction false} UnpackPacked(n: Node, rest: seq<Item>)
    requires WellFormed(n)
    ensures Unpack(n.ntype, Packed(n) + rest) == Ok((n, |Packed(n)|))
    decreases n, 1
  {
    var l := Packed(n) + rest;
    if n.Structural? {
      UnpackChildrenPacked(n, 0);
      assert l[2] == IList(PackedChildren(n, 0));
      assert n.children[0..] == n.children;
    }
  }

  /** The encodings of the children from the j-th on decode to those
      children. */
  lemma {:induction false} UnpackChildrenPacked(n: Node, j: nat)
    requires j <= |Children(n)| && WellFormed(n)
    ensures UnpackChildren(PackedChildren(n, j)) == Ok(Children(n)[j..])
    decreases n, 0, |Children(n)| - j
  {
    if j < |Children(n)| {
      var c := n.children[j];
      assert WellFormed(c);
      UnpackChildrenPacked(n, j + 1);
      UnpackChildrenCons(c, PackedChildren(n, j + 1));
      assert Children(n)[j..] == [c] + Children(n)[j + 1..];
    } else {
      assert Children(n)[j..] == [];
    }
  }

  /** A well-formed child's encoding, followed by more, decodes to that child
      in front of whatever the rest decodes to. */
  lemma {:induction false} UnpackChildrenCons(c: Node, rest: seq<Item>)
    requires WellFormed(c)
    ensures UnpackChildren(Packed(c) + rest) ==
      match UnpackChildren(rest)
      case Ok(cs) => Ok([c] + cs)
      case Err(e) => Err(e)
    decreases c, 2
  {
    var l := Packed(c) + rest;
    UnpackPacked(c, rest);
    TagRoundTrip(c.ntype);
    assert l[0] == IInt(Tag(c.ntype));
    assert l[|Packed(c)|..] == rest;
  }

  /** The tag the decoder reads first never changes the outcome: a mismatch
      with the node's own type is only logged. */
  lemma {:induction false} TagMismatchIgnored(t: NType, x: int, rest: seq<Item>)
    requires InInt32(x)
    ensures Unpack(t, [IInt(x)] + rest) == Unpack(t, [IInt(Tag(t))] + rest)
  {
    var a, b := [IInt(x)] + rest, [IInt(Tag(t))] + rest;
    assert a[1..] == b[1..] == rest;
  }

  /** The whole tree survives packing and unpacking. */
  lemma {:induction false} UnpackTreePacked(root: Node)
    requires WellFormed(root)
    ensures UnpackTree(Packed(root)) == Ok(root)
  {
    UnpackPacked(root, []);
    TagRoundTrip(root.ntype);
    assert Packed(root) + [] == Packed(root);
  }

  /** What the list holds after a node has taken its items from the front. */
  function Remainder(t: NType, l: seq<Item>): Result<(Node, seq<Item>)>
  {
    match Unpack(t, l)
    case Ok((n, k)) => Ok((n, l[k..]))
    case Err(e) => Err(e)
  }

  /** `packToEndOfList`: append the node's tag and name (or path) to l; a
      structural node then appends the list its children packed themselves
      into, one after the other. */
  method PackToEndOfList(n: Node, l: seq<Item>) returns (out: seq<Item>)
    ensures out == l + Packed(n)
    decreases n
  {
    match n {
      case Structural(t, name, cs) =>
        var childrenPacked: seq<Item> := [];
        var i := 0;
        while i < |cs|
          invariant 0 <= i <= |cs|
          invariant childrenPacked + PackedChildren(n, i) == PackedChildren(n, 0)
        {
          assert PackedChildren(n, i) == Packed(cs[i]) + PackedChildren(n, i + 1);
          AppendAssoc(childrenPacked, Packed(cs[i]), PackedChildren(n, i + 1));
          childrenPacked := PackToEndOfList(cs[i], childrenPacked);
          i := i + 1;
        }
        assert PackedChildren(n, i) == [];
        assert childrenPacked + [] == childrenPacked;
        out := l + [IInt(Tag(t)), IStr(name), IList(childrenPacked)];
      case Ref(t, path) =>
        out := l + [IInt(Tag(t)), IStr(path)];
      case Value(t, name) =>
        out := l + [IInt(Tag(t)), IStr(name)];
    }
  }

  /** `unpackFromFrontOfList` on a node of type t: remove the tag (its value
      is only compared with t), the name or path and, for a structural node,
      the children's list, which a loop decodes child by child. The result is
      the node and the rest of the list. */
  method UnpackFromFrontOfList(t: NType, l: seq<Item>) returns (r: Result<(Node, seq<Item>)>)
    ensures r == Remainder(t, l)
    decreases ListSize(l)
  {
    var rest := l;
    if rest == [] {
      return Err(ListExhausted);
    }
    var tagItem := rest[0];
    rest := rest[1..];
    if !tagItem.IInt? {
      return Err(NotAnInteger);
    }
    if !InInt32(tagItem.i) {
      return Err(IntOutOfRange);
    }
    if rest == [] {
      return Err(ListExhausted);
    }
    var nameItem := rest[0];
    rest := rest[1..];
    if !nameItem.IStr? {
      return Err(NotAString);
    }
    assert l[2..] == rest;
    match ClassOf(t) {
      case RefClass =>
        return Ok((Ref(t, nameItem.s), rest));
      case ValueClass =>
        return Ok((Value(t, nameItem.s), rest));
      case StructuralClass =>
        if rest == [] {
          return Err(ListExhausted);
        }
        var listItem := rest[0];
        rest := rest[1..];
        if !listItem.IList? {
          return Err(NotAList);
        }
        assert l[3..] == rest && l[2] == listItem;
        ItemSizeBound(l, 2);
        var cp := listItem.items;
        var children: seq<Node> := [];
        while |cp| > 0
          invariant ListSize(cp) <= ListSize(listItem.items)
          invariant UnpackChildren(cp).Ok? == UnpackChildren(listItem.items).Ok?
          invariant UnpackChildren(cp).Ok? ==>
            UnpackChildren(listItem.items).value == children + UnpackChildren(cp).value
          invariant UnpackChildren(cp).Err? ==>
            UnpackChildren(listItem.items).error == UnpackChildren(cp).error
          decreases ListSize(cp)
        {
          if !cp[0].IInt? {
            return Err(NotAnInteger);
          }
          if !InInt32(cp[0].i) {
            return Err(IntOutOfRange);
          }
          var ct := TypeOfTag(cp[0].i);
          if ct.None? {
            return Err(UnknownTag);
          }
          var c := UnpackFromFrontOfList(ct.value, cp);
          if c.Err? {
            return Err(c.error);
          }
          ListSizeSuffix(cp, Unpack(ct.value, cp).value.1);
          children := children + [c.value.0];
          cp := c.value.1;
        }
        assert cp == [] && UnpackChildren(cp) == Ok([]);
        assert children + [] == children;
        assert UnpackChildren(listItem.items) == Ok(children);
        return Ok((Structural(t, nameItem.s, children), rest));
    }
  }
}
