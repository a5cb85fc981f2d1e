/** The node kinds of the configuration tree, the tree's shape, index paths
    and the depth-first, left-to-right (pre-order) traversal that fixes the
    order in which short codes are handed out. */
module ConfigNodes {

  datatype Option<T> = None | Some(value: T)

  /** The declared type of a node (the NTYPE constants). */
  datatype NType =
    | Plain | Chooser | Link | Copy
    | ValU8 | ValU16 | ValU32 | ValS8 | ValS16 | ValS32 | ValStr | ValBin | ValFlt

  /** The wire tag of a type: PLAIN = 0 through VAL_FLT = 12. */
  function Tag(t: NType): int
  {
    match t
    case Plain => 0
    case Chooser => 1
    case Link => 2
    case Copy => 3
    case ValU8 => 4
    case ValU16 => 5
    case ValU32 => 6
    case ValS8 => 7
    case ValS16 => 8
    case ValS32 => 9
    case ValStr => 10
    case ValBin => 11
    case ValFlt => 12
  }

  /** The type a wire tag names; `None` for a tag outside 0..12, where the
      lookup in `NodesByType` throws. */
  function TypeOfTag(k: int): (t: Option<NType>)
    ensures t.Some? <==> 0 <= k <= 12
    ensures t.Some? ==> Tag(t.value) == k
  {
    if k == 0 then Some(Plain)
    else if k == 1 then Some(Chooser)
    else if k == 2 then Some(Link)
    else if k == 3 then Some(Copy)
    else if k == 4 then Some(ValU8)
    else if k == 5 then Some(ValU16)
    else if k == 6 then Some(ValU32)
    else if k == 7 then Some(ValS8)
    else if k == 8 then Some(ValS16)
    else if k == 9 then Some(ValS32)
    else if k == 10 then Some(ValStr)
    else if k == 11 then Some(ValBin)
    else if k == 12 then Some(ValFlt)
    else None
  }

  /** Every type survives the trip to its wire tag and back. */
  lemma {:induction false} TagRoundTrip(t: NType)
    ensures TypeOfTag(Tag(t)) == Some(t)
  {
  }

  /** The three node classes of the source. */
  datatype NodeClass = StructuralClass | RefClass | ValueClass

  /** `NodesByType`: the class `nodeFactory` instantiates for each type. */
  function ClassOf(t: NType): NodeClass
  {
    match t
    case Plain => StructuralClass
    case Chooser => StructuralClass
    case Link => RefClass
    case Copy => RefClass
    case _ => ValueClass
  }

  /** A node of the tree. Structural nodes group children, reference nodes
      carry a path instead of a name, value nodes are named leaves. */
  datatype Node =
    | Structural(ntype: NType, name: string, children: seq<Node>)
    | Ref(ntype: NType, path: string)
    | Value(ntype: NType, name: string)

  /** The children list: empty for reference and value nodes. */
  function Children(n: Node): seq<Node>
  {
    if n.Structural? then n.children else []
  }

  /** The class of every node matches its declared type, as it does for every
      node `nodeFactory` builds. */
  predicate WellFormed(n: Node)
  {
    match n
    case Structural(t, _, cs) =>
      ClassOf(t) == StructuralClass && forall i :: 0 <= i < |cs| ==> WellFormed(cs[i])
    case Ref(t, _) => ClassOf(t) == RefClass
    case Value(t, _) => ClassOf(t) == ValueClass
  }

  /** `needsShortCode`: decided by the node's class, true for a structural
      CHOOSER and for every value node. */
  predicate NeedsShortCode(n: Node)
  {
    match n
    case Structural(t, _, _) => t == Chooser
    case Ref(_, _) => false
    case Value(_, _) => true
  }

  /** On a well-formed node, the addressable ones are exactly the choosers
      and the value types. */
  lemma {:induction false} NeedsShortCodeByType(n: Node)
    requires WellFormed(n)
    ensures NeedsShortCode(n) <==> n.ntype !in {Plain, Link, Copy}
  {
  }

  /** The name field as the source sees it; a reference node's name is never
      set, so it is Java `null`, here `None`. */
  function NameOf(n: Node): Option<string>
  {
    if n.Ref? then None else Some(n.name)
  }

  /** A node's position: the child indices from the root down to it. */
  type Path = seq<nat>

  /** `getNodeAtPath`: follow child indices from n; `None` where an index is
      out of range (`children.get` throws). */
  function NodeAtPath(n: Node, path: Path): (r: Option<Node>)
    ensures path == [] ==> r == Some(n)
  {
    if path == [] then Some(n)
    else if path[0] < |Children(n)| then NodeAtPath(n.children[path[0]], path[1..])
    else None
  }

  lemma {:induction false} AppendAssoc<T>(a: seq<T>, b: seq<T>, c: seq<T>)
    ensures a + (b + c) == (a + b) + c
  {
  }

  /** A non-empty sequence is its front followed by its last element. */
  lemma {:induction false} FrontLast<T>(s: seq<T>)
    requires s != []
    ensures s[..|s| - 1] + [s[|s| - 1]] == s
  {
  }

  /** One step of a traversal: a node together with its path. */
  datatype Visit = Visit(path: Path, node: Node)

  /** The order in which `walk` processes nodes: the node itself, then the
      traversal of each child, left to right. `p` is the path of n. */
  function PreOrder(n: Node, p: Path): (vs: seq<Visit>)
    ensures |vs| >= 1 && vs[0] == Visit(p, n)
    decreases n, 1
  {
    [Visit(p, n)] + PreOrderUpTo(n, p, |Children(n)|)
  }

  /** The traversals of the first k children of n, concatenated. */
  function PreOrderUpTo(n: Node, p: Path, k: nat): seq<Visit>
    requires k <= |Children(n)|
    decreases n, 0, k
  {
    if k == 0 then [] else PreOrderUpTo(n, p, k - 1) + PreOrder(n.children[k - 1], p + [k - 1])
  }

  /** The paths, in traversal order, of the visited nodes that need a code. */
  function Addressable(vs: seq<Visit>): (ps: seq<Path>)
    ensures |ps| <= |vs|
  {
    if vs == [] then []
    else (if NeedsShortCode(vs[0].node) then [vs[0].path] else []) + Addressable(vs[1..])
  }

  lemma {:induction false} AddressableAppend(a: seq<Visit>, b: seq<Visit>)
    ensures Addressable(a + b) == Addressable(a) + Addressable(b)
  {
    if a == [] {
      assert a + b == b;
    } else {
      var ab := a + b;
      var h := if NeedsShortCode(a[0].node) then [a[0].path] else [];
      assert ab[0] == a[0] && ab[1..] == a[1..] + b;
      calc {
        Addressable(ab);
        h + Addressable(ab[1..]);
        h + Addressable(a[1..] + b);
        { AddressableAppend(a[1..], b); }
        h + (Addressable(a[1..]) + Addressable(b));
        h + Addressable(a[1..]) + Addressable(b);
        Addressable(a) + Addressable(b);
      }
    }
  }

  /** Each addressable path comes from a visit that needs a code, and every
      such visit contributes its path. */
  lemma {:induction false} AddressableMembers(vs: seq<Visit>)
    ensures forall q :: q in Addressable(vs) <==> exists v :: v in vs && v.path == q && NeedsShortCode(v.node)
  {
    if vs != [] {
      AddressableMembers(vs[1..]);
      assert forall v :: v in vs <==> v == vs[0] || v in vs[1..];
    }
  }

  /** Pre-order as an order on paths: a is a proper prefix of b, or a has the
      smaller index at the first place where they differ. */
  predicate PathLess(a: Path, b: Path)
  {
    if b == [] then false
    else if a == [] then true
    else a[0] < b[0] || (a[0] == b[0] && PathLess(a[1..], b[1..]))
  }

  /** Strictly increasing in pre-order; in particular free of repeats. */
  ghost predicate Increasing(ps: seq<Path>)
  {
    forall i, j :: 0 <= i < j < |ps| ==> PathLess(ps[i], ps[j])
  }

  lemma {:induction false} PathLessIrreflexive(a: Path)
    ensures !PathLess(a, a)
  {
    if a != [] {
      PathLessIrreflexive(a[1..]);
    }
  }

  lemma {:induction false} IncreasingAt(ps: seq<Path>, i: nat, j: nat)
    requires Increasing(ps) && i < j < |ps|
    ensures PathLess(ps[i], ps[j])
  {
  }

  /** A proper prefix comes first. */
  lemma {:induction false} PathLessPrefix(x: Path, y: Path)
    requires |x| < |y| && x == y[..|x|]
    ensures PathLess(x, y)
  {
    if x != [] {
      assert x[0] == y[0] && x[1..] == y[1..][..|x| - 1];
      PathLessPrefix(x[1..], y[1..]);
    }
  }

  function Paths(vs: seq<Visit>): (ps: seq<Path>)
    ensures |ps| == |vs| && forall i :: 0 <= i < |vs| ==> ps[i] == vs[i].path
  {
    if vs == [] then [] else [vs[0].path] + Paths(vs[1..])
  }

  /** Every path of a traversal from p extends p, and names the node visited
      there. */
  lemma {:induction false} PreOrderSound(n: Node, p: Path)
    ensures forall v :: v in PreOrder(n, p) ==>
      |v.path| >= |p| && v.path[..|p|] == p && NodeAtPath(n, v.path[|p|..]) == Some(v.node)
    decreases n, 1
  {
    PreOrderUpToSound(n, p, |Children(n)|);
  }

  lemma {:induction false} PreOrderUpToSound(n: Node, p: Path, k: nat)
    requires k <= |Children(n)|
    ensures forall v :: v in PreOrderUpTo(n, p, k) ==>
      |v.path| > |p| && v.path[..|p|] == p && v.path[|p|] < k &&
      NodeAtPath(n, v.path[|p|..]) == Some(v.node)
    decreases n, 0, k
  {
    if k > 0 {
      PreOrderUpToSound(n, p, k - 1);
      var c := n.children[k - 1];
      var q := p + [k - 1];
      PreOrderSound(c, q);
      forall v | v in PreOrder(c, q)
        ensures |v.path| > |p| && v.path[..|p|] == p && v.path[|p|] < k &&
          NodeAtPath(n, v.path[|p|..]) == Some(v.node)
      {
        assert v.path[..|q|] == q;
        assert v.path[..|p|] == q[..|p|] == p;
        assert v.path[|p|] == q[|p|] == k - 1;
        var r := v.path[|p|..];
        assert r[0] == k - 1 && r[1..] == v.path[|q|..];
      }
    }
  }

  /** Every node reachable by a path from n is visited, under that path. */
  lemma {:induction false} PreOrderComplete(n: Node, p: Path, r: Path)
    requires NodeAtPath(n, r).Some?
    ensures Visit(p + r, NodeAtPath(n, r).value) in PreOrder(n, p)
    decreases n, 1
  {
    if r != [] {
      PreOrderUpToComplete(n, p, |Children(n)|, r);
    } else {
      assert p + r == p;
    }
  }

  lemma {:induction false} PreOrderUpToComplete(n: Node, p: Path, k: nat, r: Path)
    requires k <= |Children(n)| && r != [] && r[0] < k && NodeAtPath(n, r).Some?
    ensures Visit(p + r, NodeAtPath(n, r).value) in PreOrderUpTo(n, p, k)
    decreases n, 0, k
  {
    if r[0] < k - 1 {
      PreOrderUpToComplete(n, p, k - 1, r);
    } else {
      var c := n.children[k - 1];
      PreOrderComplete(c, p + [k - 1], r[1..]);
      assert p + [k - 1] + r[1..] == p + r;
    }
  }

  /** `walk` visits nodes in strictly increasing pre-order: a parent before
      its descendants, and a subtree before the subtrees to its right. */
  lemma {:induction false} PreOrderIncreasing(n: Node, p: Path)
    ensures Increasing(Paths(PreOrder(n, p)))
    decreases n, 1
  {
    var k := |Children(n)|;
    PreOrderUpToIncreasing(n, p, k);
    PreOrderUpToSound(n, p, k);
    var ps := Paths(PreOrder(n, p));
    assert Paths(PreOrder(n, p)) == [p] + Paths(PreOrderUpTo(n, p, k));
    forall i, j | 0 <= i < j < |ps| ensures PathLess(ps[i], ps[j]) {
      if i == 0 {
        var v := PreOrder(n, p)[j];
        assert v in PreOrderUpTo(n, p, k);
        PathLessPrefix(p, ps[j]);
      }
    }
  }

  lemma {:induction false} PreOrderUpToIncreasing(n: Node, p: Path, k: nat)
    requires k <= |Children(n)|
    ensures Increasing(Paths(PreOrderUpTo(n, p, k)))
    decreases n, 0, k
  {
    if k > 0 {
      PreOrderUpToIncreasing(n, p, k - 1);
      PreOrderIncreasing(n.children[k - 1], p + [k - 1]);
      SiblingsOrdered(n, p, k);
      assert Increasing(Paths(PreOrderUpTo(n, p, k - 1)));
      assert Increasing(Paths(PreOrder(n.children[k - 1], p + [k - 1])));
      assert AllBefore(Paths(PreOrderUpTo(n, p, k - 1)), Paths(PreOrder(n.children[k - 1], p + [k - 1])));
      assert PreOrderUpTo(n, p, k) == PreOrderUpTo(n, p, k - 1) + PreOrder(n.children[k - 1], p + [k - 1]);
      IncreasingVisits(PreOrderUpTo(n, p, k - 1), PreOrder(n.children[k - 1], p + [k - 1]), PreOrderUpTo(n, p, k));
    }
  }

  lemma {:induction false} IncreasingVisits(a: seq<Visit>, b: seq<Visit>, ab: seq<Visit>)
    requires Increasing(Paths(a)) && Increasing(Paths(b)) && AllBefore(Paths(a), Paths(b))
    requires ab == a + b
    ensures Increasing(Paths(ab))
  {
    PathsAppend(a, b);
    IncreasingConcat(Paths(a), Paths(b), Paths(ab));
  }

  /** Every path of xs comes before every path of ys. */
  ghost predicate AllBefore(xs: seq<Path>, ys: seq<Path>)
  {
    forall i, j :: 0 <= i < |xs| && 0 <= j < |ys| ==> PathLess(xs[i], ys[j])
  }

  /** Where two paths first differ, the smaller index comes first. */
  lemma {:induction false} PathLessAt(x: Path, y: Path, d: nat)
    requires d < |x| && d < |y| && x[..d] == y[..d] && x[d] < y[d]
    ensures PathLess(x, y)
  {
    if d > 0 {
      assert x[0] == x[..d][0] == y[..d][0] == y[0];
      assert x[1..][..d - 1] == x[..d][1..] == y[..d][1..] == y[1..][..d - 1];
      PathLessAt(x[1..], y[1..], d - 1);
    }
  }

  /** A path under an earlier child of p comes before a path under its j-th
      child. */
  lemma {:induction false} BeforeSibling(p: Path, x: Path, y: Path, j: nat)
    requires |x| > |p| && x[..|p|] == p && x[|p|] < j
    requires |y| >= |p| + 1 && y[..|p| + 1] == p + [j]
    ensures PathLess(x, y)
  {
    assert y[..|p|] == y[..|p| + 1][..|p|] == p;
    assert y[|p|] == y[..|p| + 1][|p|] == j;
    PathLessAt(x, y, |p|);
  }

  /** The paths under the first k - 1 children all come before those under
      the k-th. */
  lemma {:induction false} SiblingsOrdered(n: Node, p: Path, k: nat)
    requires 0 < k <= |Children(n)|
    ensures AllBefore(Paths(PreOrderUpTo(n, p, k - 1)), Paths(PreOrder(n.children[k - 1], p + [k - 1])))
  {
    var q := p + [k - 1];
    var a, b := PreOrderUpTo(n, p, k - 1), PreOrder(n.children[k - 1], q);
    var xs, ys := Paths(a), Paths(b);
    forall i, j | 0 <= i < |xs| && 0 <= j < |ys| ensures PathLess(xs[i], ys[j]) {
      assert a[i] in a && b[j] in b;
      SiblingVisitsOrdered(n, p, k, a[i], b[j]);
    }
  }

  lemma {:induction false} SiblingVisitsOrdered(n: Node, p: Path, k: nat, v: Visit, w: Visit)
    requires 0 < k <= |Children(n)|
    requires v in PreOrderUpTo(n, p, k - 1) && w in PreOrder(n.children[k - 1], p + [k - 1])
    ensures PathLess(v.path, w.path)
  {
    PreOrderUpToSound(n, p, k - 1);
    PreOrderSound(n.children[k - 1], p + [k - 1]);
    BeforeSibling(p, v.path, w.path, k - 1);
  }

  lemma {:induction false} PathsAppend(a: seq<Visit>, b: seq<Visit>)
    ensures Paths(a + b) == Paths(a) + Paths(b)
  {
    assert forall i :: 0 <= i < |a + b| ==> (a + b)[i] == if i < |a| then a[i] else b[i - |a|];
  }

  /** Two increasing runs, every element of the first before every element of
      the second, make an increasing run. */
  lemma {:induction false} IncreasingConcat(xs: seq<Path>, ys: seq<Path>, zs: seq<Path>)
    requires Increasing(xs) && Increasing(ys)
    requires AllBefore(xs, ys) && zs == xs + ys
    ensures Increasing(zs)
  {
    forall i, j | 0 <= i < j < |zs| ensures PathLess(zs[i], zs[j]) {
      if j < |xs| {
        assert zs[i] == xs[i] && zs[j] == xs[j];
      } else if i < |xs| {
        assert zs[i] == xs[i] && zs[j] == ys[j - |xs|];
      } else {
        assert zs[i] == ys[i - |xs|] && zs[j] == ys[j - |xs|];
      }
    }
  }
}
