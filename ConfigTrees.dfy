/** `ConfigTree`: the tree, the per-node fields the source updates in place
    (code, parent, tree back-link, last value, notify handlers, cached long
    name), and the operations on them. A node is identified by its index path
    from the root; each per-node field is a map keyed by that path. */
module ConfigTrees {
  import opened Bytes
  import opened ConfigNodes
  import opened ConfigNames
  import opened ShortCodes
  import ConfigPacking

  /** A notification, tagged by the Java class of the boxed object. */
  datatype JValue =
    | JByte(b: int)              // a `Byte`, as `get()` returns it
    | JShort(s: int)             // a `Short`, from `getShort()`
    | JInt(i: int)               // an `Integer`
    | JFloat(bits: seq<Byte>)    // a `Float`, kept as its four bytes
    | JString(bytes: seq<Byte>)  // `new String(bytes)`, kept undecoded
    | JBytes(bytes: seq<Byte>)   // a `byte[]`

  /** A registered `NotifyHandler`, by identity. */
  type HandlerId = nat

  /** One call `handler.onReceived(time, value)` made for the node at `node`. */
  datatype Event = Event(handler: HandlerId, node: Path, value: JValue)

  /** The Java exceptions the tree operations can throw. */
  datatype TreeError = NullPointer | ClassCast | IndexOutOfBounds | StringIndexOutOfBounds

  datatype Result<T> = Ok(value: T) | Err(error: TreeError)

  /** Parent links as `assignShortCodes` sets them: a node's parent is the
      node one step up its path. */
  ghost predicate LinksConsistent(parent: map<Path, Path>)
  {
    forall q :: q in parent ==> q != [] && parent[q] == q[..|q| - 1]
  }

  /** `getPath`: climb the parent links to a node without one, collecting at
      each step the node's index in its parent's children. */
  function PathByLinks(parent: map<Path, Path>, q: Path): (r: Path)
    requires LinksConsistent(parent)
    ensures |r| <= |q|
    decreases |q|
  {
    if q in parent then PathByLinks(parent, parent[q]) + [q[|q| - 1]] else []
  }

  /** What `StringBuffer.append(name)` writes: a reference node's name is
      `null`. */
  function NameText(n: Node): string
  {
    match NameOf(n)
    case Some(s) => s
    case None => "null"
  }

  /** The long name before trimming, built by the recursive `getLongName`:
      name and separator of each node from the topmost linked ancestor down. */
  function LongNameRaw(root: Node, parent: map<Path, Path>, q: Path, sep: string): string
    requires LinksConsistent(parent) && NodeAtPath(root, q).Some?
    decreases |q|
  {
    if q in parent then
      NodeAtPathPrefix(root, q, |q| - 1);
      LongNameRaw(root, parent, parent[q], sep) + NameText(NodeAtPath(root, q).value) + sep
    else NameText(NodeAtPath(root, q).value) + sep
  }

  /** Reference definition: name and separator of each node on the way from
      n down q, n included. */
  function NamesText(n: Node, q: Path, sep: string): string
    requires NodeAtPath(n, q).Some?
  {
    NameText(n) + sep + (if q == [] then "" else NamesText(n.children[q[0]], q[1..], sep))
  }

  lemma {:induction false} NamesTextSnoc(n: Node, r: Path, j: nat, sep: string)
    requires NodeAtPath(n, r + [j]).Some?
    ensures NodeAtPath(n, r).Some?
    ensures NamesText(n, r + [j], sep) == NamesText(n, r, sep) + NameText(NodeAtPath(n, r + [j]).value) + sep
  {
    assert NodeAtPath(n, r).Some? by {
      NodeAtPathPrefix(n, r + [j], |r|);
      assert (r + [j])[..|r|] == r;
    }
    var x := NameText(NodeAtPath(n, r + [j]).value);
    if r == [] {
      assert r + [j] == [j] && [j][1..] == [];
    } else {
      var c, t := n.children[r[0]], r[1..];
      assert NodeAtPath(n, r + [j]) == NodeAtPath(c, t + [j]) && NamesText(n, r + [j], sep) == NameText(n) + sep + NamesText(c, t + [j], sep) by {
        assert (r + [j])[0] == r[0] && (r + [j])[1..] == t + [j];
      }
      NamesTextSnoc(c, t, j, sep);
      calc {
        NamesText(n, r + [j], sep);
        NameText(n) + sep + NamesText(c, t + [j], sep);
        NameText(n) + sep + (NamesText(c, t, sep) + x + sep);
        { AppendAssoc(NamesText(c, t, sep), x, sep);
          AppendAssoc(NameText(n) + sep, NamesText(c, t, sep), x + sep); }
        NameText(n) + sep + NamesText(c, t, sep) + (x + sep);
        NamesText(n, r, sep) + (x + sep);
        { AppendAssoc(NamesText(n, r, sep), x, sep); }
        NamesText(n, r, sep) + x + sep;
      }
    }
  }

  /** Once the parent links are set, the long name lists the names from the
      root down: the root's own name first. */
  lemma {:induction false} LongNameOfLinked(root: Node, q: Path, sep: string)
    requires NodeAtPath(root, q).Some?
    ensures LinksConsistent(Links(PreOrder(root, [])))
    ensures LongNameRaw(root, Links(PreOrder(root, [])), q, sep) == NamesText(root, q, sep)
  {
    TreeLinksConsistent(root);
    forall r | r != [] && NodeAtPath(root, r).Some? ensures r in Links(PreOrder(root, [])) {
      NodeIsLinked(root, r);
    }
    LongNameChain(root, Links(PreOrder(root, [])), q, sep);
  }

  lemma {:induction false} LongNameChain(root: Node, parent: map<Path, Path>, q: Path, sep: string)
    requires LinksConsistent(parent) && NodeAtPath(root, q).Some?
    requires forall r :: r != [] && NodeAtPath(root, r).Some? ==> r in parent
    ensures LongNameRaw(root, parent, q, sep) == NamesText(root, q, sep)
    decreases |q|
  {
    if q != [] {
      var r, j := q[..|q| - 1], q[|q| - 1];
      FrontLast(q);
      assert q in parent && parent[q] == r;
      NamesTextSnoc(root, r, j, sep);
      LongNameChain(root, parent, r, sep);
    }
  }

  lemma {:induction false} TreeLinksConsistent(root: Node)
    ensures LinksConsistent(Links(PreOrder(root, [])))
  {
    LinksShape(PreOrder(root, []));
  }

  /** Before any links are set, the long name is the node's own. */
  lemma {:induction false} LongNameUnlinked(root: Node, q: Path, sep: string)
    requires NodeAtPath(root, q).Some?
    ensures LinksConsistent(map[])
    ensures LongNameRaw(root, map[], q, sep) == NameText(NodeAtPath(root, q).value) + sep
  {
  }

  /** Once the parent links are set, `getPath` of the node at q is q itself,
      so `getNodeAtPath(n.getPath())` is n; the root's path is empty. */
  lemma {:induction false} PathOfLinked(root: Node, q: Path)
    requires NodeAtPath(root, q).Some?
    ensures LinksConsistent(Links(PreOrder(root, [])))
    ensures PathByLinks(Links(PreOrder(root, [])), q) == q
  {
    TreeLinksConsistent(root);
    forall r | r != [] && NodeAtPath(root, r).Some? ensures r in Links(PreOrder(root, [])) {
      NodeIsLinked(root, r);
    }
    PathChain(root, Links(PreOrder(root, [])), q);
  }

  lemma {:induction false} PathChain(root: Node, parent: map<Path, Path>, q: Path)
    requires LinksConsistent(parent) && NodeAtPath(root, q).Some?
    requires forall r :: r != [] && NodeAtPath(root, r).Some? ==> r in parent
    ensures PathByLinks(parent, q) == q
    decreases |q|
  {
    if q != [] {
      var r := q[..|q| - 1];
      assert q in parent && parent[q] == r;
      NodeAtPathPrefix(root, q, |q| - 1);
      PathChain(root, parent, r);
      calc {
        PathByLinks(parent, q);
        PathByLinks(parent, r) + [q[|q| - 1]];
        r + [q[|q| - 1]];
        { FrontLast(q); }
        q;
      }
    }
  }

  /** `List.remove(h)`: drop the first occurrence of h, if any. */
  function RemoveFirst(s: seq<HandlerId>, h: HandlerId): seq<HandlerId>
  {
    if s == [] then []
    else if s[0] == h then s[1..]
    else [s[0]] + RemoveFirst(s[1..], h)
  }

  /** The list without h is the list itself; otherwise the list is cut at the
      first position of h. */
  lemma {:induction false} RemoveFirstCut(s: seq<HandlerId>, h: HandlerId)
    ensures h !in s ==> RemoveFirst(s, h) == s
    ensures h in s ==> RemoveFirst(s, h) == s[..FirstIndex(s, h)] + s[FirstIndex(s, h) + 1..]
  {
    if s != [] && s[0] != h {
      RemoveFirstCut(s[1..], h);
      var t := RemoveFirst(s[1..], h);
      if h in s[1..] {
        var i := FirstIndex(s[1..], h);
        assert s[..i + 1] == [s[0]] + s[1..][..i];
        FirstIndexIs(s, h, i + 1);
        assert s[i + 2..] == s[1..][i + 1..];
        AppendAssoc([s[0]], s[1..][..i], s[1..][i + 1..]);
      } else {
        assert s == [s[0]] + s[1..];
      }
    }
  }

  /** The calls `notify` makes for the value v at q: each handler once, in
      registration order. */
  function HandlerCalls(hs: seq<HandlerId>, q: Path, v: JValue): (es: seq<Event>)
    ensures |es| == |hs|
    ensures forall i :: 0 <= i < |hs| ==> es[i] == Event(hs[i], q, v)
  {
    seq(|hs|, i requires 0 <= i < |hs| => Event(hs[i], q, v))
  }

  lemma {:induction false} HandlerCallsSnoc(hs: seq<HandlerId>, i: nat, q: Path, v: JValue)
    requires i < |hs|
    ensures HandlerCalls(hs[..i + 1], q, v) == HandlerCalls(hs[..i], q, v) + [Event(hs[i], q, v)]
  {
    var a, b := HandlerCalls(hs[..i + 1], q, v), HandlerCalls(hs[..i], q, v) + [Event(hs[i], q, v)];
    assert |a| == |b|;
    forall k | 0 <= k < |a| ensures a[k] == b[k] {
      if k < i {
        assert hs[..i + 1][k] == hs[..i][k];
      }
    }
  }

  /** Removing a handler takes out one registration of it and keeps every
      other one. */
  lemma {:induction false} RemoveFirstCount(s: seq<HandlerId>, h: HandlerId)
    ensures multiset(RemoveFirst(s, h)) == multiset(s) - multiset{h}
  {
    if s != [] {
      assert s == [s[0]] + s[1..];
      if s[0] != h {
        RemoveFirstCount(s[1..], h);
        assert RemoveFirst(s, h) == [s[0]] + RemoveFirst(s[1..], h);
      }
    }
  }

  class ConfigTree {
    var root: Node
    /** The `code` of each node that has one; every other node's is -1. */
    var code: map<Path, int>
    /** The `parent` of each node that has one; every other node's is null. */
    var parent: map<Path, Path>
    /** The nodes whose `tree` field points at this tree. */
    var attached: set<Path>
    /** The `last_value` of each node that has one; every other is null. */
    var lastValue: map<Path, JValue>
    /** `notify_handlers` of each node; an absent node has an empty list. */
    var handlers: map<Path, seq<HandlerId>>
    /** `cache_longname` of each node that has one. */
    var longNameCache: map<Path, string>
    /** The handler calls made so far, in order. */
    var events: seq<Event>

    /** What `walk` can have left on the current tree's nodes: codes and
        tree links on its nodes only, parent links to the node one step up. */
    ghost predicate Valid()
      reads this`root, this`code, this`parent, this`attached
    {
      code.Keys <= TreeCodes(root).Keys &&
      LinksConsistent(parent) && parent.Keys <= Links(PreOrder(root, [])).Keys &&
      attached <= PathSet(PreOrder(root, []))
    }

    /** `new ConfigTree(root)`: nodes freshly built, nothing assigned. */
    constructor (newRoot: Node)
      ensures Valid() && root == newRoot
      ensures code == map[] && parent == map[] && attached == {}
      ensures lastValue == map[] && handlers == map[] && longNameCache == map[] && events == []
    {
      root := newRoot;
      code := map[];
      parent := map[];
      attached := {};
      lastValue := map[];
      handlers := map[];
      longNameCache := map[];
      events := [];
    }

    /** The processor of `assignShortCodes` applied to the node n at p:
        attach n, make n the parent of each of its children, and give n the
        code g if it needs one. */
    method Process(p: Path, n: Node, g: int) returns (next: int)
      modifies this`code, this`parent, this`attached
      ensures Walked(old(code), old(parent), old(attached), [Visit(p, n)], g, code, parent, attached, next)
    {
      attached := attached + {p};
      LinkChildren(p, n);
      next := g;
      if NeedsShortCode(n) {
        code := code[p := g];
        next := g + 1;
      }
      VisitOne(old(code), old(parent), old(attached), p, n, g, code, parent, attached, next);
    }

    /** The loop of the processor that sets each child's parent to n. */
    method LinkChildren(p: Path, n: Node)
      modifies this`parent
      ensures parent == old(parent) + ChildLinks(Visit(p, n))
    {
      var i := 0;
      while i < |Children(n)|
        invariant 0 <= i <= |Children(n)|
        invariant parent == old(parent) + FirstLinks(p, i)
      {
        FirstLinksStep(old(parent), p, i);
        parent := parent[p + [i] := p];
        i := i + 1;
      }
      FirstLinksAll(p, n);
    }

    /** `walk(n, p)` with the processor of `assignShortCodes`: process n,
        then walk its children left to right, the counter running on. */
    method Walk(p: Path, n: Node, g: int) returns (next: int)
      modifies this`code, this`parent, this`attached
      ensures Walked(old(code), old(parent), old(attached), PreOrder(n, p), g, code, parent, attached, next)
      decreases n, 1
    {
      next := Process(p, n, g);
      PreOrderEnds(n, p);
      WalkedAgain(old(code), old(parent), old(attached), [Visit(p, n)], [Visit(p, n)] + PreOrderUpTo(n, p, 0), g,
                  code, parent, attached, next);
      var i := 0;
      while i < |Children(n)|
        invariant 0 <= i <= |Children(n)|
        invariant Walked(old(code), old(parent), old(attached), [Visit(p, n)] + PreOrderUpTo(n, p, i), g,
                         code, parent, attached, next)
      {
        next := WalkChild(p, n, i, old(code), old(parent), old(attached), g, next);
        i := i + 1;
      }
      WalkedAgain(old(code), old(parent), old(attached), [Visit(p, n)] + PreOrderUpTo(n, p, i), PreOrder(n, p), g,
                  code, parent, attached, next);
    }

    /** One turn of `walk`'s loop over the children of n: walk the i-th
        child, the counter running on from g0. */
    method WalkChild(p: Path, n: Node, i: nat, ghost c: map<Path, int>, ghost pa: map<Path, Path>,
                     ghost a: set<Path>, ghost g: int, g0: int) returns (next: int)
      requires i < |Children(n)|
      requires Walked(c, pa, a, [Visit(p, n)] + PreOrderUpTo(n, p, i), g, code, parent, attached, g0)
      modifies this`code, this`parent, this`attached
      ensures Walked(c, pa, a, [Visit(p, n)] + PreOrderUpTo(n, p, i + 1), g, code, parent, attached, next)
      decreases n, 0
    {
      next := Walk(p + [i], n.children[i], g0);
      PreOrderUpToStep(n, p, i);
      WalkStep([Visit(p, n)] + PreOrderUpTo(n, p, i), PreOrder(n.children[i], p + [i]), g, g0,
               c, pa, a, old(code), old(parent), old(attached), code, parent, attached, next,
               [Visit(p, n)] + PreOrderUpTo(n, p, i + 1));
    }

    /** `assignShortCodes`: codes 0, 1, 2, ... in pre-order to the nodes that
        need one, every child linked to its parent, every node attached. The
        counter starts at 0 on every call, so a second call changes nothing. */
    method AssignShortCodes()
      requires Valid()
      modifies this`code, this`parent, this`attached
      ensures code == TreeCodes(root)
      ensures parent == Links(PreOrder(root, []))
      ensures attached == PathSet(PreOrder(root, []))
    {
      ghost var c0, p0, a0 := code, parent, attached;
      var next := Walk([], root, 0);
      UnionSubsumed(c0, TreeCodes(root));
      UnionSubsumed(p0, Links(PreOrder(root, [])));
      assert a0 + PathSet(PreOrder(root, [])) == PathSet(PreOrder(root, []));
    }

    /** `getShortCodeList`: walk the tree and enter each node that has a code
        under that code. After `assignShortCodes` the keys are exactly
        0 .. k-1 for the k nodes that need a code, each mapped to the node
        carrying it. */
    method GetShortCodeList() returns (r: map<int, Path>)
      ensures r == Inverse(code, PreOrder(root, []))
      ensures code == TreeCodes(root) ==>
        (forall i :: i in r <==> 0 <= i < |Addressable(PreOrder(root, []))|) &&
        (forall i :: i in r ==> r[i] in code && code[r[i]] == i && NodeAtPath(root, r[i]).Some?)
    {
      r := CollectCodes([], root, map[]);
      assert map[] + Inverse(code, PreOrder(root, [])) == Inverse(code, PreOrder(root, []));
      ShortCodeListIsInverse(root);
    }

    /** `walk(n, p)` with the processor of `getShortCodeList`. */
    method CollectCodes(p: Path, n: Node, acc: map<int, Path>) returns (r: map<int, Path>)
      ensures r == acc + Inverse(code, PreOrder(n, p))
      decreases n, 1
    {
      r := acc;
      if p in code {
        r := r[code[p] := p];
      }
      InverseFirst(code, acc, p, n, r);
      var i := 0;
      while i < |Children(n)|
        invariant 0 <= i <= |Children(n)|
        invariant r == acc + Inverse(code, [Visit(p, n)] + PreOrderUpTo(n, p, i))
      {
        r := CollectChild(p, n, i, acc, r);
        i := i + 1;
      }
      assert PreOrder(n, p) == [Visit(p, n)] + PreOrderUpTo(n, p, i);
    }

    /** One turn of the loop over the children of n: collect the codes under
        the i-th child. */
    method CollectChild(p: Path, n: Node, i: nat, ghost acc: map<int, Path>, r0: map<int, Path>)
      returns (r: map<int, Path>)
      requires i < |Children(n)|
      requires r0 == acc + Inverse(code, [Visit(p, n)] + PreOrderUpTo(n, p, i))
      ensures r == acc + Inverse(code, [Visit(p, n)] + PreOrderUpTo(n, p, i + 1))
      decreases n, 0
    {
      r := CollectCodes(p + [i], n.children[i], r0);
      PreOrderUpToStep(n, p, i);
      InverseStep(code, acc, [Visit(p, n)] + PreOrderUpTo(n, p, i), PreOrder(n.children[i], p + [i]),
                  [Visit(p, n)] + PreOrderUpTo(n, p, i + 1), r0, r);
    }

    /** `getPath`. Once the parent links are set it gives back the node's own
        path, so `getNodeAtPath` finds the node again; the root's is empty. */
    function GetPath(q: Path): (r: Path)
      reads this
      requires Valid()
      ensures q == [] ==> r == []
      ensures parent == Links(PreOrder(root, [])) && NodeAtPath(root, q).Some? ==>
        r == q && NodeAtPath(root, r) == NodeAtPath(root, q)
    {
      if parent == Links(PreOrder(root, [])) && NodeAtPath(root, q).Some? then
        PathOfLinked(root, q);
        PathByLinks(parent, q)
      else PathByLinks(parent, q)
    }

    /** `getNodeAtLongname`. */
    function GetNodeAtLongname(name: string): (r: Lookup)
      reads this
      ensures r.Found? ==>
        NodeAtPath(root, r.path).Some? && NamesAlong(root, r.path) == Some(AllSome(Split(name, ':'))) &&
        Unshadowed(root, r.path)
      ensures forall p :: NamesAlong(root, p) == Some(AllSome(Split(name, ':'))) && Unshadowed(root, p) ==>
        r == Found(p)
    {
      assert forall p :: NamesAlong(root, p) == Some(AllSome(Split(name, ':'))) && Unshadowed(root, p) ==>
        NodeAtLongname(root, name) == Found(p) by {
        forall p | NamesAlong(root, p) == Some(AllSome(Split(name, ':'))) && Unshadowed(root, p)
          ensures NodeAtLongname(root, name) == Found(p)
        {
          DescendComplete(root, Split(name, ':'), p);
        }
      }
      NodeAtLongname(root, name)
    }

    /** `getLongName(sep)`: a cached name is returned as it is, whatever the
        separator; otherwise the names from the topmost linked ancestor down,
        each followed by sep, with the first and the last character deleted
        (a string shorter than two characters makes `deleteCharAt` throw),
        and the result is cached. */
    method GetLongName(q: Path, sep: string) returns (r: Result<string>)
      requires LinksConsistent(parent) && NodeAtPath(root, q).Some?
      modifies this`longNameCache
      ensures q in old(longNameCache) ==> r == Ok(old(longNameCache)[q]) && longNameCache == old(longNameCache)
      ensures q !in old(longNameCache) ==>
        var raw := LongNameRaw(root, parent, q, sep);
        if |raw| >= 2 then
          r == Ok(raw[1..|raw| - 1]) && longNameCache == old(longNameCache)[q := raw[1..|raw| - 1]]
        else
          r == Err(StringIndexOutOfBounds) && longNameCache == old(longNameCache)
    {
      if q in longNameCache {
        return Ok(longNameCache[q]);
      }
      var raw := LongNameRaw(root, parent, q, sep);
      if |raw| < 1 {
        return Err(StringIndexOutOfBounds);
      }
      raw := raw[..|raw| - 1];
      if |raw| < 1 {
        return Err(StringIndexOutOfBounds);
      }
      raw := raw[1..];
      longNameCache := longNameCache[q := raw];
      return Ok(raw);
    }

    function HandlersOf(q: Path): seq<HandlerId>
      reads this
    {
      if q in handlers then handlers[q] else []
    }

    /** `addNotifyHandler`: a null handler is ignored. */
    method AddNotifyHandler(q: Path, h: Option<HandlerId>)
      modifies this`handlers
      ensures h.None? ==> handlers == old(handlers)
      ensures h.Some? ==> handlers == old(handlers)[q := old(HandlersOf(q)) + [h.value]]
    {
      if h.Some? {
        handlers := handlers[q := HandlersOf(q) + [h.value]];
      }
    }

    /** `removeNotifyHandler`: the first registration of h goes. */
    method RemoveNotifyHandler(q: Path, h: HandlerId)
      modifies this`handlers
      ensures handlers == old(handlers)[q := RemoveFirst(old(HandlersOf(q)), h)]
    {
      handlers := handlers[q := RemoveFirst(HandlersOf(q), h)];
    }

    /** `clearNotifyHandlers`. */
    method ClearNotifyHandlers(q: Path)
      modifies this`handlers
      ensures handlers == old(handlers)[q := []] && HandlersOf(q) == []
    {
      handlers := handlers[q := []];
    }

    /** `notify`: record the value as the node's last value, then call each
        of its handlers once, in registration order. */
    method Notify(q: Path, v: JValue)
      modifies this`lastValue, this`events
      ensures lastValue == old(lastValue)[q := v]
      ensures events == old(events) + HandlerCalls(HandlersOf(q), q, v)
    {
      lastValue := lastValue[q := v];
      var hs := HandlersOf(q);
      var i := 0;
      while i < |hs|
        invariant 0 <= i <= |hs| && lastValue == old(lastValue)[q := v]
        invariant events == old(events) + HandlerCalls(hs[..i], q, v)
      {
        HandlerCallsSnoc(hs, i, q, v);
        AppendAssoc(old(events), HandlerCalls(hs[..i], q, v), [Event(hs[i], q, v)]);
        events := events + [Event(hs[i], q, v)];
        i := i + 1;
      }
      assert hs[..i] == hs;
    }

    /** `getValueAt`: the last value of the named node; null for a name that
        does not resolve or a node never notified. */
    function GetValueAt(name: string): (r: Result<Option<JValue>>)
      reads this
      ensures r.Err? <==> GetNodeAtLongname(name).NullName?
      ensures r.Ok? && r.value.Some? <==> GetNodeAtLongname(name).Found? && GetNodeAtLongname(name).path in lastValue
      ensures r.Ok? && r.value.Some? ==> r.value.value == lastValue[GetNodeAtLongname(name).path]
    {
      match GetNodeAtLongname(name)
      case Found(q) => Ok(if q in lastValue then Some(lastValue[q]) else None)
      case NotFound => Ok(None)
      case NullName => Err(NullPointer)
    }

    /** `getChosenNode`: the child of the named node selected by its last
        value. An unset last value becomes the Integer 0 first. The asserts
        of the source are disabled, so a missing node throws at its first
        use and a non-chooser is indexed like a chooser; a last value that is
        not an Integer (a chooser notification is a Byte) fails the cast. */
    method GetChosenNode(name: string) returns (r: Result<Path>)
      modifies this`lastValue
      ensures !GetNodeAtLongname(name).Found? ==> r == Err(NullPointer) && lastValue == old(lastValue)
      ensures GetNodeAtLongname(name).Found? ==>
        var q := GetNodeAtLongname(name).path;
        var k := |Children(NodeAtPath(root, q).value)|;
        lastValue == (if q in old(lastValue) then old(lastValue) else old(lastValue)[q := JInt(0)]) &&
        match lastValue[q]
        case JInt(i) => if 0 <= i < k then r == Ok(q + [i]) else r == Err(IndexOutOfBounds)
        case _ => r == Err(ClassCast)
    {
      var found := GetNodeAtLongname(name);
      if !found.Found? {
        return Err(NullPointer);
      }
      var q := found.path;
      if q !in lastValue {
        lastValue := lastValue[q := JInt(0)];
      }
      var cs := Children(NodeAtPath(root, q).value);
      match lastValue[q] {
        case JInt(i) =>
          if 0 <= i < |cs| {
            r := Ok(q + [i]);
          } else {
            r := Err(IndexOutOfBounds);
          }
        case _ =>
          r := Err(ClassCast);
      }
    }

    /** `getChosenName`: the name of the chosen child (null for a reference
        node); it fails, and changes the last values, as `getChosenNode`
        does. */
    method GetChosenName(name: string) returns (r: Result<Option<string>>)
      modifies this`lastValue
      ensures !GetNodeAtLongname(name).Found? ==> r == Err(NullPointer) && lastValue == old(lastValue)
      ensures GetNodeAtLongname(name).Found? ==>
        var q := GetNodeAtLongname(name).path;
        var cs := Children(NodeAtPath(root, q).value);
        lastValue == (if q in old(lastValue) then old(lastValue) else old(lastValue)[q := JInt(0)]) &&
        match lastValue[q]
        case JInt(i) => if 0 <= i < |cs| then r == Ok(NameOf(cs[i])) else r == Err(IndexOutOfBounds)
        case _ => r == Err(ClassCast)
    {
      var chosen := GetChosenNode(name);
      match chosen {
        case Err(e) =>
          r := Err(e);
        case Ok(q) =>
          var found := GetNodeAtLongname(name);
          var i := q[|q| - 1];
          NodeAtPathSnoc(root, found.path, i);
          assert found.path + [i] == q;
          r := Ok(NameOf(NodeAtPath(root, q).value));
      }
    }

    /** `unpack` from the decoded item list on: the first item's tag picks
        the root's class, the root decodes itself from the front of the list,
        the new nodes start with no state, and `assignShortCodes` runs. */
    method Unpack(items: seq<ConfigPacking.Item>) returns (failure: Option<ConfigPacking.DecodeError>)
      requires Valid()
      modifies this
      ensures Valid()
      ensures failure.None? <==> ConfigPacking.UnpackTree(items).Ok?
      ensures failure.Some? ==> ConfigPacking.UnpackTree(items) == ConfigPacking.Err(failure.value)
      ensures failure.Some? ==>
        root == old(root) && code == old(code) && parent == old(parent) &&
        attached == old(attached) && lastValue == old(lastValue) && handlers == old(handlers) &&
        longNameCache == old(longNameCache)
      ensures failure.None? ==>
        root == ConfigPacking.UnpackTree(items).value &&
        code == TreeCodes(root) && parent == Links(PreOrder(root, [])) &&
        attached == PathSet(PreOrder(root, [])) &&
        lastValue == map[] && handlers == map[] && longNameCache == map[]
      ensures events == old(events)
    {
      if items == [] {
        return Some(ConfigPacking.ListExhausted);
      }
      if !items[0].IInt? {
        return Some(ConfigPacking.NotAnInteger);
      }
      if !ConfigPacking.InInt32(items[0].i) {
        return Some(ConfigPacking.IntOutOfRange);
      }
      var t := TypeOfTag(items[0].i);
      if t.None? {
        return Some(ConfigPacking.UnknownTag);
      }
      var decoded := ConfigPacking.UnpackFromFrontOfList(t.value, items);
      if decoded.Err? {
        return Some(decoded.error);
      }
      assert ConfigPacking.UnpackTree(items) == ConfigPacking.Ok(decoded.value.0);
      Replace(decoded.value.0);
      TreeLinksConsistent(root);
      return None;
    }

    /** The tail of `unpack`: a fresh root whose nodes carry no state yet,
        then `assignShortCodes`. */
    method Replace(newRoot: Node)
      modifies this`root, this`code, this`parent, this`attached, this`lastValue, this`handlers, this`longNameCache
      ensures root == newRoot
      ensures code == TreeCodes(root) && parent == Links(PreOrder(root, [])) &&
        attached == PathSet(PreOrder(root, []))
      ensures lastValue == map[] && handlers == map[] && longNameCache == map[]
    {
      Reset(newRoot);
      AssignShortCodes();
    }

    /** The nodes of newRoot in place of the old ones, none of them attached,
        coded, observed or handled yet. */
    method Reset(newRoot: Node)
      modifies this`root, this`code, this`parent, this`attached, this`lastValue, this`handlers, this`longNameCache
      ensures root == newRoot && Valid()
      ensures code == map[] && parent == map[] && attached == {}
      ensures lastValue == map[] && handlers == map[] && longNameCache == map[]
    {
      root := newRoot;
      code := map[];
      parent := map[];
      attached := {};
      lastValue := map[];
      handlers := map[];
      longNameCache := map[];
      NothingAssignedIsValid(root, code, parent, attached);
    }
  }

  lemma {:induction false} NothingAssignedIsValid(root: Node, c: map<Path, int>, pa: map<Path, Path>, a: set<Path>)
    requires c == map[] && pa == map[] && a == {}
    ensures c.Keys <= TreeCodes(root).Keys && LinksConsistent(pa)
    ensures pa.Keys <= Links(PreOrder(root, [])).Keys && a <= PathSet(PreOrder(root, []))
  {
  }

  lemma {:induction false} PreOrderEnds(n: Node, p: Path)
    ensures [Visit(p, n)] == [Visit(p, n)] + PreOrderUpTo(n, p, 0)
    ensures [Visit(p, n)] + PreOrderUpTo(n, p, |Children(n)|) == PreOrder(n, p)
  {
    assert [Visit(p, n)] + [] == [Visit(p, n)];
  }

  lemma {:induction false} PreOrderUpToStep(n: Node, p: Path, i: nat)
    requires i < |Children(n)|
    ensures [Visit(p, n)] + PreOrderUpTo(n, p, i + 1) ==
      [Visit(p, n)] + PreOrderUpTo(n, p, i) + PreOrder(n.children[i], p + [i])
  {
    var x, y := PreOrderUpTo(n, p, i), PreOrder(n.children[i], p + [i]);
    assert PreOrderUpTo(n, p, i + 1) == x + y;
    assert [Visit(p, n)] + (x + y) == [Visit(p, n)] + x + y;
  }

  /** The state after walking the visits vs from state (c, pa, a) with the
      counter at g: the codes, links and attachments of vs added, the counter
      moved past the codes handed out. */
  ghost predicate Walked(c: map<Path, int>, pa: map<Path, Path>, a: set<Path>, vs: seq<Visit>, g: int,
                         c1: map<Path, int>, p1: map<Path, Path>, a1: set<Path>, next: int)
  {
    c1 == c + CodeMap(Addressable(vs), g) && next == g + |Addressable(vs)| &&
    p1 == pa + Links(vs) && a1 == a + PathSet(vs)
  }

  /** The links to p of its first k children, entered one child at a time. */
  function FirstLinks(p: Path, k: nat): map<Path, Path>
  {
    if k == 0 then map[] else FirstLinks(p, k - 1)[p + [k - 1] := p]
  }

  lemma {:induction false} FirstLinksAll(p: Path, n: Node)
    ensures FirstLinks(p, |Children(n)|) == ChildLinks(Visit(p, n))
  {
    FirstLinksAre(p, |Children(n)|);
  }

  lemma {:induction false} FirstLinksAre(p: Path, k: nat)
    ensures FirstLinks(p, k) == map j | 0 <= j < k :: p + [j] := p
  {
    var x, y := map j | 0 <= j < k :: p + [j] := p, FirstLinks(p, k);
    forall q | q in x ensures q in y && y[q] == p {
      var j :| 0 <= j < k && q == p + [j];
      FirstLinksHas(p, k, j);
    }
    forall q | q in y ensures q in x && y[q] == p {
      FirstLinksKey(p, k, q);
    }
  }

  /** Each of the first k children is linked to p. */
  lemma {:induction false} FirstLinksHas(p: Path, k: nat, j: nat)
    requires j < k
    ensures p + [j] in FirstLinks(p, k) && FirstLinks(p, k)[p + [j]] == p
  {
    if j < k - 1 {
      FirstLinksHas(p, k - 1, j);
    }
  }

  /** Only the first k children are linked, and only to p. */
  lemma {:induction false} FirstLinksKey(p: Path, k: nat, q: Path)
    requires q in FirstLinks(p, k)
    ensures |q| == |p| + 1 && q == p + [q[|p|]] && q[|p|] < k && FirstLinks(p, k)[q] == p
  {
    if q != p + [k - 1] {
      FirstLinksKey(p, k - 1, q);
    }
  }

  /** What processing one node does, as a walk over that node alone. */
  lemma {:induction false} VisitOne(c: map<Path, int>, pa: map<Path, Path>, a: set<Path>, p: Path, n: Node, g: int,
                                    c1: map<Path, int>, p1: map<Path, Path>, a1: set<Path>, next: int)
    requires c1 == (if NeedsShortCode(n) then c[p := g] else c)
    requires next == (if NeedsShortCode(n) then g + 1 else g)
    requires p1 == pa + ChildLinks(Visit(p, n)) && a1 == a + {p}
    ensures Walked(c, pa, a, [Visit(p, n)], g, c1, p1, a1, next)
  {
    OneVisit(p, n);
    if NeedsShortCode(n) {
      assert CodeMap([p], g) == map[p := g];
      assert c[p := g] == c + map[p := g];
    } else {
      assert c + map[] == c;
    }
  }

  lemma {:induction false} OneVisit(p: Path, n: Node)
    ensures Addressable([Visit(p, n)]) == if NeedsShortCode(n) then [p] else []
    ensures Links([Visit(p, n)]) == ChildLinks(Visit(p, n))
    ensures PathSet([Visit(p, n)]) == {p}
  {
    var vs := [Visit(p, n)];
    assert vs[1..] == [];
    assert ChildLinks(Visit(p, n)) + map[] == ChildLinks(Visit(p, n));
  }

  lemma {:induction false} FirstLinksStep(m: map<Path, Path>, p: Path, i: nat)
    ensures (m + FirstLinks(p, i))[p + [i] := p] == m + FirstLinks(p, i + 1)
  {
    UnionUpdate(m, FirstLinks(p, i), p + [i], p);
  }

  lemma {:induction false} UnionUpdate<K, V>(m: map<K, V>, f: map<K, V>, k: K, v: V)
    ensures (m + f)[k := v] == m + f[k := v]
  {
  }

  /** The first entry `getShortCodeList` makes, for the node it starts at. */
  lemma {:induction false} InverseFirst(code: map<Path, int>, acc: map<int, Path>, p: Path, n: Node, r: map<int, Path>)
    requires r == if p in code then acc[code[p] := p] else acc
    ensures r == acc + Inverse(code, [Visit(p, n)] + PreOrderUpTo(n, p, 0))
  {
    var vs := [Visit(p, n)] + PreOrderUpTo(n, p, 0);
    assert vs == [Visit(p, n)] && vs[..0] == [];
  }

  lemma {:induction false} InverseStep(code: map<Path, int>, acc: map<int, Path>, vs: seq<Visit>, w: seq<Visit>,
                                       u: seq<Visit>, r0: map<int, Path>, r1: map<int, Path>)
    requires u == vs + w
    requires r0 == acc + Inverse(code, vs) && r1 == r0 + Inverse(code, w)
    ensures r1 == acc + Inverse(code, u)
  {
    calc {
      r1;
      acc + Inverse(code, vs) + Inverse(code, w);
      { UnionAssoc(acc, Inverse(code, vs), Inverse(code, w)); }
      acc + (Inverse(code, vs) + Inverse(code, w));
      { InverseAppend(code, vs, w); }
      acc + Inverse(code, vs + w);
    }
  }

  lemma {:induction false} WalkedAgain(c: map<Path, int>, pa: map<Path, Path>, a: set<Path>, vs: seq<Visit>, u: seq<Visit>, g: int,
                    c1: map<Path, int>, p1: map<Path, Path>, a1: set<Path>, next: int)
    requires Walked(c, pa, a, vs, g, c1, p1, a1, next) && vs == u
    ensures Walked(c, pa, a, u, g, c1, p1, a1, next)
  {
  }

  lemma {:induction false} WalkStep(vs: seq<Visit>, w: seq<Visit>, g: int, g0: int,
                 c: map<Path, int>, pa: map<Path, Path>, a: set<Path>,
                 c0: map<Path, int>, p0: map<Path, Path>, a0: set<Path>,
                 c1: map<Path, int>, p1: map<Path, Path>, a1: set<Path>, next: int, u: seq<Visit>)
    requires Walked(c, pa, a, vs, g, c0, p0, a0, g0)
    requires Walked(c0, p0, a0, w, g0, c1, p1, a1, next)
    requires u == vs + w
    ensures Walked(c, pa, a, u, g, c1, p1, a1, next)
  {
    CodesStep(c, vs, w, g);
    calc {
      c1;
      c0 + CodeMap(Addressable(w), g0);
      c + CodeMap(Addressable(vs), g) + CodeMap(Addressable(w), g + |Addressable(vs)|);
      c + CodeMap(Addressable(vs + w), g);
    }
    LinksStep(pa, vs, w);
    assert p1 == pa + Links(vs + w);
    PathSetStep(a, vs, w);
  }

  lemma {:induction false} PathSetStep(a: set<Path>, vs: seq<Visit>, w: seq<Visit>)
    ensures a + PathSet(vs) + PathSet(w) == a + PathSet(vs + w)
  {
    PathSetAppend(vs, w);
  }

  lemma {:induction false} CodesStep(c: map<Path, int>, vs: seq<Visit>, w: seq<Visit>, g: int)
    ensures |Addressable(vs + w)| == |Addressable(vs)| + |Addressable(w)|
    ensures c + CodeMap(Addressable(vs), g) + CodeMap(Addressable(w), g + |Addressable(vs)|) ==
      c + CodeMap(Addressable(vs + w), g)
  {
    var a, b := Addressable(vs), Addressable(w);
    assert Addressable(vs + w) == a + b by {
      AddressableAppend(vs, w);
    }
    assert c + CodeMap(a, g) + CodeMap(b, g + |a|) == c + CodeMap(a + b, g) by {
      UnionAssoc(c, CodeMap(a, g), CodeMap(b, g + |a|));
      CodeMapAppend(a, b, g);
    }
  }

  lemma {:induction false} LinksStep(pa: map<Path, Path>, vs: seq<Visit>, w: seq<Visit>)
    ensures pa + Links(vs) + Links(w) == pa + Links(vs + w)
  {
    LinksAppend(vs, w);
    UnionAssoc(pa, Links(vs), Links(w));
  }

  lemma {:induction false} UnionSubsumed<K, V>(x: map<K, V>, y: map<K, V>)
    requires x.Keys <= y.Keys
    ensures x + y == y
  {
  }

  lemma {:induction false} PathSetAppend(a: seq<Visit>, b: seq<Visit>)
    ensures PathSet(a + b) == PathSet(a) + PathSet(b)
  {
    assert forall v :: v in a + b <==> v in a || v in b;
  }
}
