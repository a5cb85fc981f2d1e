/** Looking nodes up by name: Java's `String.split` on a one-character
    separator, upper-casing, `getChildByName` and `getNodeAtLongname`. */
module ConfigNames {
  import opened ConfigNodes

  /** The fields of s between occurrences of sep (one more field than there
      are separators). */
  function Fields(s: string, sep: char): (fs: seq<string>)
    ensures |fs| >= 1
    ensures forall i :: 0 <= i < |fs| ==> sep !in fs[i]
  {
    if sep !in s then [s]
    else
      var i := FirstIndex(s, sep);
      [s[..i]] + Fields(s[i + 1..], sep)
  }

  /** `indexOf`: where c first occurs in s. */
  function FirstIndex<T(==)>(s: seq<T>, c: T): (i: nat)
    requires c in s
    ensures i < |s| && s[i] == c && c !in s[..i]
  {
    if s[0] == c then 0 else 1 + FirstIndex(s[1..], c)
  }

  function DropTrailingEmpty(fs: seq<string>): (r: seq<string>)
    ensures |r| <= |fs| && r == fs[..|r|]
    ensures r != [] ==> r[|r| - 1] != ""
  {
    if fs != [] && fs[|fs| - 1] == "" then DropTrailingEmpty(fs[..|fs| - 1]) else fs
  }

  /** `s.split(sep)` (limit 0): when sep does not occur the answer is [s],
      even for the empty string; otherwise all fields with the trailing empty
      ones removed. */
  function Split(s: string, sep: char): (ts: seq<string>)
    ensures forall i :: 0 <= i < |ts| ==> sep !in ts[i]
  {
    if sep !in s then [s] else DropTrailingEmpty(Fields(s, sep))
  }

  /** `s.split(sep, limit)` for a positive limit: at most limit - 1 cuts, the
      last token keeps the rest of the string. */
  function SplitLimit(s: string, sep: char, limit: nat): (ts: seq<string>)
    requires limit >= 1
    ensures 1 <= |ts| <= limit
  {
    if limit == 1 || sep !in s then [s]
    else
      var i := FirstIndex(s, sep);
      [s[..i]] + SplitLimit(s[i + 1..], sep, limit - 1)
  }

  lemma {:induction false} FirstIndexIs<T>(s: seq<T>, c: T, k: nat)
    requires k < |s| && s[k] == c && c !in s[..k]
    ensures c in s && FirstIndex(s, c) == k
  {
    assert s[k] in s;
    if k > 0 {
      assert s[0] in s[..k];
      assert s[1..][..k - 1] == s[1..k];
      assert forall j :: 0 <= j < k - 1 ==> s[1..k][j] == s[..k][j + 1];
      FirstIndexIs(s[1..], c, k - 1);
    }
  }

  /** The tokens joined with sep between them. */
  function Join(ts: seq<string>, sep: char): string
    requires |ts| >= 1
  {
    if |ts| == 1 then ts[0] else ts[0] + [sep] + Join(ts[1..], sep)
  }

  /** Cutting a join at its separators gives back the tokens. */
  lemma {:induction false} FieldsOfJoin(ts: seq<string>, sep: char)
    requires |ts| >= 1 && forall i :: 0 <= i < |ts| ==> sep !in ts[i]
    ensures Fields(Join(ts, sep), sep) == ts
  {
    if |ts| > 1 {
      var s := Join(ts, sep);
      assert s[..|ts[0]|] == ts[0];
      FirstIndexIs(s, sep, |ts[0]|);
      assert s[|ts[0]| + 1..] == Join(ts[1..], sep);
      FieldsOfJoin(ts[1..], sep);
    }
  }

  /** `split` inverts `Join` for tokens free of the separator, provided the
      last token is not empty (the empty ones at the end are dropped) or
      there is just one token. */
  lemma {:induction false} SplitJoinRoundTrip(ts: seq<string>, sep: char)
    requires |ts| >= 1 && forall i :: 0 <= i < |ts| ==> sep !in ts[i]
    requires |ts| == 1 || ts[|ts| - 1] != ""
    ensures Split(Join(ts, sep), sep) == ts
  {
    var s := Join(ts, sep);
    if |ts| > 1 {
      assert s[|ts[0]|] == sep;
      assert sep in s;
      FieldsOfJoin(ts, sep);
    }
  }

  /** Upper-casing of the ASCII letters a..z. */
  function UpperAscii(s: string): (u: string)
    ensures |u| == |s|
    ensures forall i :: 0 <= i < |s| ==>
      u[i] == if 'a' <= s[i] <= 'z' then (s[i] as int - 32) as char else s[i]
  {
    if s == [] then [] else [if 'a' <= s[0] <= 'z' then (s[0] as int - 32) as char else s[0]] + UpperAscii(s[1..])
  }

  /** The outcome of a search by name. `NullName` stands for the
      NullPointerException the source raises when the scan reaches a child
      whose name is null (a reference node) before finding a match. */
  datatype Lookup = Found(path: Path) | NotFound | NullName

  /** `getChildByName` over a children list: the first child named `name`. */
  function ChildByName(cs: seq<Node>, name: string): (r: Lookup)
    ensures r.Found? ==> |r.path| == 1 && r.path[0] < |cs| && NameOf(cs[r.path[0]]) == Some(name)
    ensures r.Found? || r.NotFound? ==>
      forall j :: 0 <= j < (if r.Found? then r.path[0] else |cs|) ==>
        NameOf(cs[j]).Some? && NameOf(cs[j]) != Some(name)
    ensures r.NullName? <==> exists j :: (0 <= j < |cs| && NameOf(cs[j]).None? &&
      forall k :: 0 <= k < j ==> NameOf(cs[k]).Some? && NameOf(cs[k]) != Some(name))
  {
    if cs == [] then NotFound
    else if NameOf(cs[0]).None? then NullName
    else if NameOf(cs[0]) == Some(name) then Found([0])
    else
      match ChildByName(cs[1..], name)
      case Found(q) =>
        assert forall j :: 1 <= j < q[0] + 1 ==> cs[j] == cs[1..][j - 1];
        Found([q[0] + 1])
      case NotFound => NotFound
      case NullName =>
        ghost var j :| 0 <= j < |cs[1..]| && NameOf(cs[1..][j]).None? &&
          forall k :: 0 <= k < j ==> NameOf(cs[1..][k]).Some? && NameOf(cs[1..][k]) != Some(name);
        assert NameOf(cs[j + 1]).None?;
        assert forall k :: 0 <= k < j + 1 ==> NameOf(cs[k]).Some? && NameOf(cs[k]) != Some(name) by {
          forall k | 0 <= k < j + 1 ensures NameOf(cs[k]).Some? && NameOf(cs[k]) != Some(name) {
            if k > 0 { assert cs[k] == cs[1..][k - 1]; }
          }
        }
        NullName
  }

  /** The names met on the way from n down a path (n's own name excluded). */
  function NamesAlong(n: Node, path: Path): Option<seq<Option<string>>>
  {
    if path == [] then Some([])
    else if path[0] < |Children(n)| then
      match NamesAlong(n.children[path[0]], path[1..])
      case Some(ns) => Some([NameOf(n.children[path[0]])] + ns)
      case None => None
    else None
  }

  function AllSome(ts: seq<string>): (r: seq<Option<string>>)
    ensures |r| == |ts| && forall i :: 0 <= i < |ts| ==> r[i] == Some(ts[i])
  {
    if ts == [] then [] else [Some(ts[0])] + AllSome(ts[1..])
  }

  /** No child on the way down p is shadowed: at each level every sibling
      left of the one taken has a name, and a different one. These are the
      children a first-match scan can reach. */
  predicate Unshadowed(n: Node, p: Path)
    decreases |p|
  {
    p == [] ||
    (p[0] < |Children(n)| && NameOf(Children(n)[p[0]]).Some? &&
     (forall j :: 0 <= j < p[0] ==>
        NameOf(Children(n)[j]).Some? && NameOf(Children(n)[j]) != NameOf(Children(n)[p[0]])) &&
     Unshadowed(Children(n)[p[0]], p[1..]))
  }

  /** Descend from n taking, for each token, the first child of that name. */
  function Descend(n: Node, tokens: seq<string>): (r: Lookup)
    ensures r.Found? ==> |r.path| == |tokens| && NodeAtPath(n, r.path).Some?
    ensures r.Found? ==> NamesAlong(n, r.path) == Some(AllSome(tokens)) && Unshadowed(n, r.path)
  {
    if tokens == [] then Found([])
    else
      match ChildByName(Children(n), tokens[0])
      case Found(q) =>
        (match Descend(Children(n)[q[0]], tokens[1..])
         case Found(r) =>
           assert (q + r)[0] == q[0] && (q + r)[1..] == r;
           Found(q + r)
         case NotFound => NotFound
         case NullName => NullName)
      case NotFound => NotFound
      case NullName => NullName
  }

  /** The scan finds a named child that no earlier sibling shadows. */
  lemma {:induction false} ChildByNameFirst(cs: seq<Node>, name: string, k: nat)
    requires k < |cs| && NameOf(cs[k]) == Some(name)
    requires forall j :: 0 <= j < k ==> NameOf(cs[j]).Some? && NameOf(cs[j]) != Some(name)
    ensures ChildByName(cs, name) == Found([k])
    decreases k
  {
    if k > 0 {
      assert NameOf(cs[0]).Some? && NameOf(cs[0]) != Some(name);
      assert cs[1..][k - 1] == cs[k];
      assert forall j :: 0 <= j < k - 1 ==> cs[1..][j] == cs[j + 1];
      ChildByNameFirst(cs[1..], name, k - 1);
    }
  }

  /** Completeness: a path whose names are the tokens and whose children no
      earlier sibling shadows is the one found. */
  lemma {:induction false} DescendComplete(n: Node, tokens: seq<string>, p: Path)
    requires NamesAlong(n, p) == Some(AllSome(tokens)) && Unshadowed(n, p)
    ensures Descend(n, tokens) == Found(p)
    decreases |p|
  {
    if p == [] {
      assert |AllSome(tokens)| == 0;
    } else {
      var c := Children(n)[p[0]];
      assert c == n.children[p[0]];
      var ns := NamesAlong(c, p[1..]).value;
      assert AllSome(tokens) == [NameOf(c)] + ns;
      assert tokens != [] && NameOf(c) == Some(tokens[0]);
      assert AllSome(tokens) == [Some(tokens[0])] + AllSome(tokens[1..]);
      assert ns == AllSome(tokens[1..]);
      ChildByNameFirst(Children(n), tokens[0], p[0]);
      DescendComplete(c, tokens[1..], p[1..]);
      assert [p[0]] + p[1..] == p;
    }
  }

  /** `n = n.getChildByName(t)` after the lookup l from n: a failure
      stays, a found node moves on to its child named t. */
  function Step(n: Node, l: Lookup, t: string): Lookup
    requires l.Found? ==> NodeAtPath(n, l.path).Some?
  {
    match l
    case Found(p) =>
      (match ChildByName(Children(NodeAtPath(n, p).value), t)
       case Found(q) => Found(p + q)
       case NotFound => NotFound
       case NullName => NullName)
    case NotFound => NotFound
    case NullName => NullName
  }

  /** One more token is one more `getChildByName` from the node reached so
      far: the step of the source's loop over the tokens. */
  lemma {:induction false} DescendSnoc(n: Node, tokens: seq<string>, t: string)
    ensures Descend(n, tokens + [t]) == Step(n, Descend(n, tokens), t)
    decreases |tokens|
  {
    if tokens == [] {
      assert [t][0] == t && [t][1..] == [];
      assert [] + [t] == [t];
    } else {
      var u := tokens + [t];
      assert u[0] == tokens[0] && u[1..] == tokens[1..] + [t];
      var first := ChildByName(Children(n), tokens[0]);
      if first.Found? {
        var q := first.path;
        var c := Children(n)[q[0]];
        DescendSnoc(c, tokens[1..], t);
        var d := Descend(c, tokens[1..]);
        if d.Found? {
          DescendFoundStep(n, q, c, d.path, t);
        }
      }
    }
  }

  /** Stepping on from q + r in n is stepping on from r in n's child q[0],
      with q put in front. */
  lemma {:induction false} DescendFoundStep(n: Node, q: Path, c: Node, r: Path, t: string)
    requires |q| == 1 && q[0] < |Children(n)| && c == Children(n)[q[0]] && NodeAtPath(c, r).Some?
    ensures NodeAtPath(n, q + r) == NodeAtPath(c, r)
    ensures Step(n, Found(q + r), t) ==
      match Step(c, Found(r), t)
      case Found(r2) => Found(q + r2)
      case NotFound => NotFound
      case NullName => NullName
  {
    assert q == [q[0]];
    NodeAtPathCons(n, q[0], r);
    match ChildByName(Children(NodeAtPath(c, r).value), t) {
      case Found(q2) => assert q + (r + q2) == (q + r) + q2;
      case NotFound =>
      case NullName =>
    }
  }

  /** Following i then r from n is following r from the i-th child. */
  lemma {:induction false} NodeAtPathCons(n: Node, i: nat, r: Path)
    requires i < |Children(n)|
    ensures NodeAtPath(n, [i] + r) == NodeAtPath(Children(n)[i], r)
  {
    assert ([i] + r)[0] == i && ([i] + r)[1..] == r;
  }

  /** `getNodeAtLongname`: split on ':' and descend from the root. The first
      token is matched against the root's children, never against the root's
      own name. */
  function NodeAtLongname(root: Node, name: string): Lookup
  {
    Descend(root, Split(name, ':'))
  }
}
