/** What `assignShortCodes` and `getShortCodeList` compute, as functions of
    the pre-order traversal: the code of each addressable node, the parent
    link of each child, and the map from code back to node. */
module ShortCodes {
  import opened ConfigNodes

  /** The codes handed out along `order`, the first path getting c and each
      later one the next integer; a later entry wins over an earlier one. */
  function CodeMap(order: seq<Path>, c: int): (m: map<Path, int>)
    ensures m.Keys == set q | q in order
  {
    if order == [] then map[]
    else
      var front := order[..|order| - 1];
      assert forall q :: q in order <==> q in front || q == order[|order| - 1] by {
        assert order == front + [order[|order| - 1]];
      }
      CodeMap(front, c)[order[|order| - 1] := c + |order| - 1]
  }

  /** The codes of the whole tree under `root`: pre-order, from 0. */
  function TreeCodes(root: Node): map<Path, int>
  {
    CodeMap(Addressable(PreOrder(root, [])), 0)
  }

  predicate Distinct(ps: seq<Path>)
  {
    forall i, j :: 0 <= i < j < |ps| ==> ps[i] != ps[j]
  }

  /** Handing out codes along a then along b is handing them out along a + b. */
  lemma {:induction false} CodeMapAppend(a: seq<Path>, b: seq<Path>, c: int)
    ensures CodeMap(a + b, c) == CodeMap(a, c) + CodeMap(b, c + |a|)
  {
    if b == [] {
      assert a + b == a;
    } else {
      var b' := b[..|b| - 1];
      assert (a + b)[..|a + b| - 1] == a + b';
      assert (a + b)[|a + b| - 1] == b[|b| - 1];
      CodeMapAppend(a, b', c);
    }
  }

  /** Along a repetition-free order, the i-th path gets code c + i. */
  lemma {:induction false} CodeMapAt(order: seq<Path>, c: int)
    requires Distinct(order)
    ensures forall i :: 0 <= i < |order| ==> CodeMap(order, c)[order[i]] == c + i
  {
    if order != [] {
      var front := order[..|order| - 1];
      CodeMapAt(front, c);
      forall i | 0 <= i < |order| ensures CodeMap(order, c)[order[i]] == c + i {
        if i < |order| - 1 {
          assert order[i] == front[i] && order[i] != order[|order| - 1];
        }
      }
    }
  }

  /** Strictly increasing paths never repeat. */
  lemma {:induction false} IncreasingDistinct(ps: seq<Path>)
    requires Increasing(ps)
    ensures Distinct(ps)
  {
    forall i, j | 0 <= i < j < |ps| ensures ps[i] != ps[j] {
      PathLessIrreflexive(ps[i]);
    }
  }

  /** The addressable paths of a traversal keep its order. */
  lemma {:induction false} AddressableIncreasing(vs: seq<Visit>)
    requires Increasing(Paths(vs))
    ensures Increasing(Addressable(vs))
  {
    if vs != [] {
      var t := vs[1..];
      assert Increasing(Paths(t)) by {
        assert forall i :: 0 <= i < |t| ==> Paths(t)[i] == Paths(vs)[i + 1];
      }
      AddressableIncreasing(t);
      if NeedsShortCode(vs[0].node) {
        HeadBefore(vs);
        IncreasingConcat([vs[0].path], Addressable(t), Addressable(vs));
      }
    }
  }

  /** In an increasing traversal the first path comes before every
      addressable path after it. */
  lemma {:induction false} HeadBefore(vs: seq<Visit>)
    requires vs != [] && Increasing(Paths(vs))
    ensures AllBefore([vs[0].path], Addressable(vs[1..]))
  {
    var t, a := vs[1..], Addressable(vs[1..]);
    var ps := Paths(vs);
    AddressableMembers(t);
    forall i, j | 0 <= i < 1 && 0 <= j < |a| ensures PathLess([vs[0].path][i], a[j]) {
      assert [vs[0].path][i] == vs[0].path;
      assert a[j] in a;
      var v :| v in t && v.path == a[j] && NeedsShortCode(v.node);
      var m :| 0 <= m < |t| && t[m] == v;
      assert ps[0] == vs[0].path && ps[m + 1] == v.path;
      IncreasingAt(ps, 0, m + 1);
    }
  }

  /** `assignShortCodes`, as the walk numbers them: codes 0, 1, 2, ... to the
      addressable nodes in pre-order, each node's code telling its place. */
  lemma {:induction false} TreeCodesInPreOrder(root: Node)
    ensures forall i :: 0 <= i < |Addressable(PreOrder(root, []))| ==>
      TreeCodes(root)[Addressable(PreOrder(root, []))[i]] == i
    ensures forall q1, q2 :: q1 in TreeCodes(root) && q2 in TreeCodes(root) && TreeCodes(root)[q1] < TreeCodes(root)[q2] ==>
      PathLess(q1, q2)
  {
    var a := Addressable(PreOrder(root, []));
    PreOrderIncreasing(root, []);
    AddressableIncreasing(PreOrder(root, []));
    IncreasingDistinct(a);
    CodeMapAt(a, 0);
    forall q1, q2 | q1 in TreeCodes(root) && q2 in TreeCodes(root) && TreeCodes(root)[q1] < TreeCodes(root)[q2]
      ensures PathLess(q1, q2)
    {
      var i :| 0 <= i < |a| && a[i] == q1;
      var j :| 0 <= j < |a| && a[j] == q2;
    }
  }

  /** Exactly the choosers and the value nodes of the tree get a code; on a
      well-formed tree PLAIN, LINK and COPY nodes keep -1 (no entry). */
  lemma {:induction false} TreeCodesExactly(root: Node, q: Path)
    ensures q in TreeCodes(root) <==> NodeAtPath(root, q).Some? && NeedsShortCode(NodeAtPath(root, q).value)
    ensures WellFormed(root) && NodeAtPath(root, q).Some? ==>
      (q in TreeCodes(root) <==> NodeAtPath(root, q).value.ntype !in {Plain, Link, Copy})
  {
    var vs := PreOrder(root, []);
    AddressableMembers(vs);
    PreOrderSound(root, []);
    if NodeAtPath(root, q).Some? {
      PreOrderComplete(root, [], q);
      assert [] + q == q;
      if WellFormed(root) {
        NodeAtPathWellFormed(root, q);
        NeedsShortCodeByType(NodeAtPath(root, q).value);
      }
    }
    if q in TreeCodes(root) {
      var v :| v in vs && v.path == q && NeedsShortCode(v.node);
      assert v.path[0..] == v.path;
    }
  }

  lemma {:induction false} NodeAtPathWellFormed(n: Node, q: Path)
    requires WellFormed(n) && NodeAtPath(n, q).Some?
    ensures WellFormed(NodeAtPath(n, q).value)
  {
    if q != [] {
      NodeAtPathWellFormed(n.children[q[0]], q[1..]);
    }
  }

  /** The parent links set while visiting v: each child's parent is v. */
  function ChildLinks(v: Visit): map<Path, Path>
  {
    map j | 0 <= j < |Children(v.node)| :: v.path + [j] := v.path
  }

  /** The parent links a walk over vs leaves behind. */
  function Links(vs: seq<Visit>): map<Path, Path>
  {
    if vs == [] then map[] else ChildLinks(vs[0]) + Links(vs[1..])
  }

  lemma {:induction false} UnionAssoc<K, V>(x: map<K, V>, y: map<K, V>, z: map<K, V>)
    ensures x + (y + z) == (x + y) + z
  {
  }

  lemma {:induction false} LinksAppend(a: seq<Visit>, b: seq<Visit>)
    ensures Links(a + b) == Links(a) + Links(b)
  {
    if a == [] {
      assert a + b == b;
      assert Links(a) + Links(b) == Links(b);
    } else {
      var ab := a + b;
      assert ab[0] == a[0] && ab[1..] == a[1..] + b;
      calc {
        Links(ab);
        ChildLinks(ab[0]) + Links(ab[1..]);
        ChildLinks(a[0]) + Links(a[1..] + b);
        { LinksAppend(a[1..], b); }
        ChildLinks(a[0]) + (Links(a[1..]) + Links(b));
        { UnionAssoc(ChildLinks(a[0]), Links(a[1..]), Links(b)); }
        ChildLinks(a[0]) + Links(a[1..]) + Links(b);
        Links(a) + Links(b);
      }
    }
  }

  /** Every link points from a child to the path one shorter, and the links
      are exactly those from the children of the visited nodes. */
  lemma {:induction false} LinksShape(vs: seq<Visit>)
    ensures forall q :: q in Links(vs) ==> q != [] && Links(vs)[q] == q[..|q| - 1]
    ensures forall q :: q in Links(vs) <==>
      exists v, j :: v in vs && 0 <= j < |Children(v.node)| && q == v.path + [j]
  {
    if vs != [] {
      LinksShape(vs[1..]);
      forall q | q in ChildLinks(vs[0]) ensures q != [] && ChildLinks(vs[0])[q] == q[..|q| - 1] {
        var j :| 0 <= j < |Children(vs[0].node)| && q == vs[0].path + [j];
        assert q[..|q| - 1] == vs[0].path;
      }
      assert forall v :: v in vs <==> v == vs[0] || v in vs[1..];
    }
  }

  lemma {:induction false} NodeAtPathSnoc(n: Node, r: Path, j: nat)
    requires NodeAtPath(n, r).Some?
    ensures NodeAtPath(n, r + [j]) ==
      if j < |Children(NodeAtPath(n, r).value)| then Some(NodeAtPath(n, r).value.children[j]) else None
  {
    if r != [] {
      assert (r + [j])[0] == r[0] && (r + [j])[1..] == r[1..] + [j];
      NodeAtPathSnoc(n.children[r[0]], r[1..], j);
    } else {
      assert r + [j] == [j];
    }
  }

  lemma {:induction false} NodeAtPathPrefix(n: Node, r: Path, k: nat)
    requires NodeAtPath(n, r).Some? && k <= |r|
    ensures NodeAtPath(n, r[..k]).Some?
  {
    if k > 0 {
      assert r[..k][0] == r[0] && r[..k][1..] == r[1..][..k - 1];
      NodeAtPathPrefix(n.children[r[0]], r[1..], k - 1);
    }
  }

  /** `assignShortCodes` links every node of the tree but the root to its
      parent, the node one step up its path, and links nothing else. */
  lemma {:induction false} TreeLinks(root: Node, q: Path)
    ensures q in Links(PreOrder(root, [])) <==> q != [] && NodeAtPath(root, q).Some?
    ensures q in Links(PreOrder(root, [])) ==> Links(PreOrder(root, []))[q] == q[..|q| - 1]
  {
    LinksShape(PreOrder(root, []));
    if q in Links(PreOrder(root, [])) {
      LinkedIsNode(root, q);
    }
    if q != [] && NodeAtPath(root, q).Some? {
      NodeIsLinked(root, q);
    }
  }

  lemma {:induction false} LinkedIsNode(root: Node, q: Path)
    requires q in Links(PreOrder(root, []))
    ensures NodeAtPath(root, q).Some?
  {
    var vs := PreOrder(root, []);
    LinksShape(vs);
    PreOrderSound(root, []);
    var v, j :| v in vs && 0 <= j < |Children(v.node)| && q == v.path + [j];
    assert v.path[0..] == v.path;
    NodeAtPathSnoc(root, v.path, j);
  }

  lemma {:induction false} NodeIsLinked(root: Node, q: Path)
    requires q != [] && NodeAtPath(root, q).Some?
    ensures q in Links(PreOrder(root, []))
  {
    var r := q[..|q| - 1];
    NodeAtPathPrefix(root, q, |q| - 1);
    NodeAtPathSnoc(root, r, q[|q| - 1]);
    assert r + [q[|q| - 1]] == q;
    PreOrderComplete(root, [], r);
    assert [] + r == r;
    LinksContain(PreOrder(root, []), Visit(r, NodeAtPath(root, r).value), q[|q| - 1]);
  }

  lemma {:induction false} LinksContain(vs: seq<Visit>, v: Visit, j: nat)
    requires v in vs && j < |Children(v.node)|
    ensures v.path + [j] in Links(vs)
  {
    if v != vs[0] {
      LinksContain(vs[1..], v, j);
    } else {
      assert v.path + [j] in ChildLinks(v);
    }
  }

  /** The paths a walk over vs visits (the nodes whose `tree` it sets). */
  function PathSet(vs: seq<Visit>): set<Path>
  {
    set v | v in vs :: v.path
  }

  /** The walk from the root reaches every node of the tree and nothing else. */
  lemma {:induction false} TreePaths(root: Node, q: Path)
    ensures q in PathSet(PreOrder(root, [])) <==> NodeAtPath(root, q).Some?
  {
    PreOrderSound(root, []);
    if NodeAtPath(root, q).Some? {
      PreOrderComplete(root, [], q);
      assert [] + q == q;
    }
    if q in PathSet(PreOrder(root, [])) {
      var v :| v in PreOrder(root, []) && v.path == q;
      assert v.path[0..] == v.path;
    }
  }

  /** The map `getShortCodeList` fills while walking vs: each visited node
      that has a code is entered under it; a later entry wins. */
  function Inverse(code: map<Path, int>, vs: seq<Visit>): map<int, Path>
  {
    if vs == [] then map[]
    else
      var v := vs[|vs| - 1];
      var m := Inverse(code, vs[..|vs| - 1]);
      if v.path in code then m[code[v.path] := v.path] else m
  }

  lemma {:induction false} InverseAppend(code: map<Path, int>, a: seq<Visit>, b: seq<Visit>)
    ensures Inverse(code, a + b) == Inverse(code, a) + Inverse(code, b)
  {
    if b == [] {
      assert a + b == a;
    } else {
      var b' := b[..|b| - 1];
      assert (a + b)[..|a + b| - 1] == a + b';
      assert (a + b)[|a + b| - 1] == b[|b| - 1];
      InverseAppend(code, a, b');
    }
  }

  /** Code c + i mapped to the i-th path of order. */
  function Enumerate(order: seq<Path>, c: int): (m: map<int, Path>)
    ensures forall i :: i in m <==> c <= i < c + |order|
    ensures forall i :: 0 <= i < |order| ==> m[c + i] == order[i]
  {
    if order == [] then map[]
    else
      var front := order[..|order| - 1];
      var m := Enumerate(front, c);
      assert forall i :: 0 <= i < |front| ==> m[c + i] == order[i];
      m[c + |order| - 1 := order[|order| - 1]]
  }

  /** Inverting codes handed out in traversal order enumerates the
      addressable paths. */
  lemma {:induction false} InverseOfCodes(code: map<Path, int>, vs: seq<Visit>, c: int)
    requires forall w :: w in vs ==> (w.path in code <==> NeedsShortCode(w.node))
    requires forall j :: 0 <= j < |Addressable(vs)| ==> Addressable(vs)[j] in code && code[Addressable(vs)[j]] == c + j
    ensures Inverse(code, vs) == Enumerate(Addressable(vs), c)
  {
    if vs != [] {
      var front, v := vs[..|vs| - 1], vs[|vs| - 1];
      var a, af := Addressable(vs), Addressable(front);
      var own := if NeedsShortCode(v.node) then [v.path] else [];
      assert a == af + own by {
        FrontLast(vs);
        AddressableAppend(front, [v]);
        assert [v][1..] == [];
      }
      forall w | w in front ensures w.path in code <==> NeedsShortCode(w.node) {
        assert w in vs;
      }
      forall j | 0 <= j < |af| ensures af[j] in code && code[af[j]] == c + j {
        assert af[j] == a[j];
      }
      InverseOfCodes(code, front, c);
      assert v.path in code <==> NeedsShortCode(v.node) by {
        assert v in vs;
      }
      if NeedsShortCode(v.node) {
        assert code[v.path] == c + |af| by {
          assert a[|af|] == v.path;
        }
        calc {
          Inverse(code, vs);
          Inverse(code, front)[code[v.path] := v.path];
          Enumerate(af, c)[c + |af| := v.path];
          { EnumerateSnoc(af, v.path, c); }
          Enumerate(af + [v.path], c);
          Enumerate(a, c);
        }
      } else {
        assert a == af;
        assert Inverse(code, vs) == Inverse(code, front);
      }
    }
  }

  lemma {:induction false} EnumerateSnoc(order: seq<Path>, p: Path, c: int)
    ensures Enumerate(order + [p], c) == Enumerate(order, c)[c + |order| := p]
  {
    FrontLast(order + [p]);
    assert (order + [p])[..|order|] == order;
  }

  /** Within the traversal from the root, a node has a code exactly when it
      needs one. */
  lemma {:induction false} CodedVisits(root: Node)
    ensures forall w :: w in PreOrder(root, []) ==> (w.path in TreeCodes(root) <==> NeedsShortCode(w.node))
  {
    var vs := PreOrder(root, []);
    var a := Addressable(vs);
    assert Distinct(Paths(vs)) by {
      PreOrderIncreasing(root, []);
      IncreasingDistinct(Paths(vs));
    }
    assert forall q :: q in TreeCodes(root) <==> q in a;
    AddressableMembers(vs);
    forall w | w in vs ensures w.path in a <==> NeedsShortCode(w.node) {
      if w.path in a {
        var v :| v in vs && v.path == w.path && NeedsShortCode(v.node);
        SamePathSameVisit(vs, v, w);
      }
    }
  }

  /** In a traversal without repeated paths, a path names one visit. */
  lemma {:induction false} SamePathSameVisit(vs: seq<Visit>, v: Visit, w: Visit)
    requires Distinct(Paths(vs)) && v in vs && w in vs && v.path == w.path
    ensures v == w
  {
    var x :| 0 <= x < |vs| && vs[x] == v;
    var y :| 0 <= y < |vs| && vs[y] == w;
    assert Paths(vs)[x] == Paths(vs)[y];
  }

  /** `getShortCodeList` after `assignShortCodes`: its keys are exactly
      0 .. k-1 for the k addressable nodes, and key i maps to the node whose
      code is i, a chooser or value node of the tree. */
  lemma {:induction false} ShortCodeListIsInverse(root: Node)
    ensures forall i :: i in Inverse(TreeCodes(root), PreOrder(root, [])) <==>
      0 <= i < |Addressable(PreOrder(root, []))|
    ensures forall i :: i in Inverse(TreeCodes(root), PreOrder(root, [])) ==>
      var q := Inverse(TreeCodes(root), PreOrder(root, []))[i];
      q in TreeCodes(root) && TreeCodes(root)[q] == i &&
      NodeAtPath(root, q).Some? && NeedsShortCode(NodeAtPath(root, q).value)
  {
    var vs := PreOrder(root, []);
    var a := Addressable(vs);
    var code := TreeCodes(root);
    TreeCodesInPreOrder(root);
    CodedVisits(root);
    InverseOfCodes(code, vs, 0);
    var inv := Inverse(code, vs);
    assert inv == Enumerate(a, 0);
    forall i | i in inv
      ensures var q := inv[i];
        q in code && code[q] == i && NodeAtPath(root, q).Some? && NeedsShortCode(NodeAtPath(root, q).value)
    {
      assert 0 + i == i;
      assert inv[i] == a[i];
      TreeCodesExactly(root, a[i]);
    }
  }
}
