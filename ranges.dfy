/**
 * Selection ranges and `getTextNodesInRange`. A boundary point is a node and
 * an offset (DOM Standard, section 5.2); the text nodes of a subtree are
 * listed in the order a `TreeWalker` showing only text nodes visits them
 * (section 6.2); `intersectsNode` follows section 5.5 of the same standard.
 */
module Ranges {
  import opened Dom

  // ---------------------------------------------------------------------------
  // Document order

  /**
   * Strict lexicographic order on index sequences, a proper prefix first.
   * On positions it is document order (an ancestor before its descendants,
   * an earlier sibling's subtree before a later sibling's).
   */
  predicate LexLess(a: seq<nat>, b: seq<nat>)
    decreases |a|
  {
    |b| > 0 && (|a| == 0 || a[0] < b[0] || (a[0] == b[0] && LexLess(a[1..], b[1..])))
  }

  /** Length of the longest common prefix. */
  function CommonLen(a: seq<nat>, b: seq<nat>): (k: nat)
    ensures k <= |a| && k <= |b| && a[..k] == b[..k]
    ensures k < |a| && k < |b| ==> a[k] != b[k]
  {
    if |a| == 0 || |b| == 0 || a[0] != b[0] then 0
    else
      var k := 1 + CommonLen(a[1..], b[1..]);
      assert a[..k] == [a[0]] + a[1..][..k - 1];
      assert b[..k] == [b[0]] + b[1..][..k - 1];
      k
  }

  /** The first index where two sequences differ decides the order. */
  lemma {:induction false} DiffDecides(a: seq<nat>, b: seq<nat>, d: nat)
    requires d < |a| && d < |b| && a[..d] == b[..d] && a[d] < b[d]
    ensures LexLess(a, b)
    decreases d
  {
    if d > 0 {
      assert a[0] == a[..d][0] == b[..d][0] == b[0];
      assert a[1..][..d - 1] == a[..d][1..] == b[..d][1..] == b[1..][..d - 1];
      DiffDecides(a[1..], b[1..], d - 1);
    }
  }

  /** A prefix comes before every proper extension, and after none. */
  lemma {:induction false} PrefixFirst(a: seq<nat>, b: seq<nat>)
    requires |a| <= |b| && b[..|a|] == a
    ensures |a| < |b| ==> LexLess(a, b)
    ensures !LexLess(b, a)
    decreases |a|
  {
    if |a| > 0 {
      assert a[0] == b[0];
      assert b[1..][..|a| - 1] == a[1..];
      PrefixFirst(a[1..], b[1..]);
    }
  }

  lemma {:induction false} LexAsymmetric(a: seq<nat>, b: seq<nat>)
    requires LexLess(a, b)
    ensures !LexLess(b, a)
    decreases |a|
  {
    if |a| > 0 && a[0] == b[0] {
      LexAsymmetric(a[1..], b[1..]);
    }
  }

  lemma {:induction false} LexTransitive(a: seq<nat>, b: seq<nat>, c: seq<nat>)
    requires LexLess(a, b) && LexLess(b, c)
    ensures LexLess(a, c)
    decreases |a|
  {
    if |a| > 0 && a[0] == b[0] && b[0] == c[0] {
      LexTransitive(a[1..], b[1..], c[1..]);
    }
  }

  /** Putting the same index in front keeps the order. */
  lemma {:induction false} PrependKeepsOrder(j: nat, a: seq<nat>, b: seq<nat>)
    ensures LexLess([j] + a, [j] + b) <==> LexLess(a, b)
  {
    assert ([j] + a)[1..] == a && ([j] + b)[1..] == b;
  }

  // ---------------------------------------------------------------------------
  // Boundary points and ranges

  datatype BoundaryPoint = BoundaryPoint(node: Pos, offset: nat)

  /** A range as `Range` objects hold it: start and end boundary points. */
  datatype Range = Range(start: BoundaryPoint, end: BoundaryPoint)

  /** Where a boundary point sits among the nodes: just before child `offset` of its node. */
  function Key(b: BoundaryPoint): seq<nat> {
    b.node + [b.offset]
  }

  /**
   * "Before" for boundary points. For two points in the same node the
   * offsets decide; when the node of `a` is an ancestor of that of `b`, `a`
   * comes first exactly when its offset is at most the index of the child
   * leading to `b` (see `BeforeAncestorCase`); otherwise the nodes' document
   * order decides.
   */
  predicate Before(a: BoundaryPoint, b: BoundaryPoint) {
    LexLess(Key(a), Key(b))
  }

  /** The ancestor case of the standard's comparison, step 3 of section 5.2. */
  lemma {:induction false} BeforeAncestorCase(a: BoundaryPoint, c: nat, rest: Pos, k: nat)
    ensures Before(a, BoundaryPoint(a.node + [c] + rest, k)) <==> a.offset <= c
  {
    var ka := Key(a);
    var kb := Key(BoundaryPoint(a.node + [c] + rest, k));
    var d := |a.node|;
    assert ka[..d] == kb[..d] == a.node;
    assert ka[d] == a.offset && kb[d] == c;
    if a.offset < c {
      DiffDecides(ka, kb, d);
    } else if a.offset > c {
      DiffDecides(kb, ka, d);
      LexAsymmetric(kb, ka);
    } else {
      assert kb[..|ka|] == ka;
      PrefixFirst(ka, kb);
    }
  }

  /** The length of a node in the sense of the standard: the data of a text or comment, the children otherwise. */
  function NodeLength(n: Node): nat {
    if n.Text? || n.Comment? then |n.content| else |Kids(n)|
  }

  /** A range of the document: both points are in the tree within their node, and start is not after end. */
  predicate ValidRange(root: Node, rng: Range) {
    ValidPos(root, rng.start.node) && rng.start.offset <= NodeLength(NodeAt(root, rng.start.node)) &&
    ValidPos(root, rng.end.node) && rng.end.offset <= NodeLength(NodeAt(root, rng.end.node)) &&
    !Before(rng.end, rng.start)
  }

  /** `commonAncestorContainer`: the deepest inclusive ancestor of both containers. */
  function CommonAncestor(rng: Range): (ca: Pos)
    ensures IsPrefix(ca, rng.start.node) && IsPrefix(ca, rng.end.node)
  {
    rng.start.node[..CommonLen(rng.start.node, rng.end.node)]
  }

  /**
   * `intersectsNode`: a node without a parent always intersects; otherwise
   * (parent, index) must be before the end and (parent, index + 1) after the
   * start.
   */
  predicate Intersects(rng: Range, r: Pos) {
    |r| == 0 ||
    (Before(BoundaryPoint(Parent(r), Last(r)), rng.end) &&
     Before(rng.start, BoundaryPoint(Parent(r), Last(r) + 1)))
  }

  /** The same test on keys: the node's own position is before the end key, the position after it after the start key. */
  lemma {:induction false} IntersectsKeys(rng: Range, r: Pos)
    requires |r| > 0
    ensures Key(BoundaryPoint(Parent(r), Last(r))) == r
    ensures Key(BoundaryPoint(Parent(r), Last(r) + 1)) == r[|r| - 1 := Last(r) + 1]
  {
  }

  // ---------------------------------------------------------------------------
  // The text nodes of a subtree, in the order of a TreeWalker

  /** Positions, relative to `n`, of the text nodes strictly below `n`, in document order. */
  function TextsIn(n: Node): seq<Pos>
    decreases n, 1
  {
    match n
    case Element(_, _, _, _, cs) => TextsInKids(cs, 0)
    case Document(cs) => TextsInKids(cs, 0)
    case _ => []
  }

  function TextsInKids(cs: seq<Node>, base: nat): seq<Pos>
    decreases cs, 0
  {
    if cs == [] then []
    else
      (if cs[0].Text? then [[base]] else Under(base, TextsIn(cs[0]))) + TextsInKids(cs[1..], base + 1)
  }

  /** Every position moved below child `j`. */
  function Under(j: nat, ps: seq<Pos>): (r: seq<Pos>)
    ensures |r| == |ps| && forall k :: 0 <= k < |ps| ==> r[k] == [j] + ps[k]
  {
    seq(|ps|, k requires 0 <= k < |ps| => [j] + ps[k])
  }

  predicate Sorted(ps: seq<Pos>) {
    forall i, j :: 0 <= i < j < |ps| ==> LexLess(ps[i], ps[j])
  }

  /** Whether `t`, relative to the child `c`, is listed for `c` by its parent: `c` itself when it is a text node, else a text node below it. */
  predicate InChild(c: Node, t: Pos) {
    if c.Text? then t == [] else t in TextsIn(c)
  }

  lemma {:induction false} UnderMembers(j: nat, ps: seq<Pos>, r: Pos)
    ensures r in Under(j, ps) <==> |r| > 0 && r[0] == j && r[1..] in ps
  {
    if r in Under(j, ps) {
      var k :| 0 <= k < |ps| && Under(j, ps)[k] == r;
      assert r[1..] == ps[k];
    }
    if |r| > 0 && r[0] == j && r[1..] in ps {
      var k :| 0 <= k < |ps| && ps[k] == r[1..];
      assert Under(j, ps)[k] == r;
    }
  }

  lemma {:induction false} TextsInKidsMembers(cs: seq<Node>, base: nat, r: Pos)
    ensures r in TextsInKids(cs, base) <==>
      |r| > 0 && base <= r[0] < base + |cs| && InChild(cs[r[0] - base], r[1..])
    decreases cs
  {
    if cs != [] {
      var head := if cs[0].Text? then [[base]] else Under(base, TextsIn(cs[0]));
      TextsInKidsMembers(cs[1..], base + 1, r);
      assert r in TextsInKids(cs, base) <==> r in head || r in TextsInKids(cs[1..], base + 1);
      if cs[0].Text? {
        assert r in head <==> |r| > 0 && r[0] == base && r[1..] == [] by {
          if |r| > 0 && r[0] == base && r[1..] == [] {
            assert r == [base];
          }
        }
      } else {
        UnderMembers(base, TextsIn(cs[0]), r);
      }
      if |r| > 0 && base + 1 <= r[0] < base + |cs| {
        assert cs[1..][r[0] - (base + 1)] == cs[r[0] - base];
      }
    }
  }

  /** What the walker visits is exactly the text nodes below `n`. */
  lemma {:induction false} TextsInMembers(n: Node, r: Pos)
    ensures r in TextsIn(n) <==> |r| > 0 && ValidPos(n, r) && NodeAt(n, r).Text?
    decreases n
  {
    match n
    case Element(_, _, _, _, cs) => KidsMembers(n, cs, r);
    case Document(cs) => KidsMembers(n, cs, r);
    case _ =>
  }

  lemma {:induction false} KidsMembers(n: Node, cs: seq<Node>, r: Pos)
    requires HasKids(n) && cs == Kids(n)
    ensures r in TextsIn(n) <==> |r| > 0 && ValidPos(n, r) && NodeAt(n, r).Text?
    decreases n, 0
  {
    TextsInKidsMembers(cs, 0, r);
    if |r| > 0 && r[0] < |cs| {
      var c := cs[r[0]];
      var t := r[1..];
      assert ValidPos(n, r) <==> ValidPos(c, t);
      if c.Text? {
        if ValidPos(c, t) {
          assert t == [];
        }
      } else {
        assert c < n;
        TextsInMembers(c, t);
      }
    }
  }

  /** Every position listed for `cs` starts with an index of `cs`, shifted by `base`. */
  lemma {:induction false} TextsInKidsRange(cs: seq<Node>, base: nat, r: Pos)
    requires r in TextsInKids(cs, base)
    ensures |r| > 0 && base <= r[0] < base + |cs|
    decreases cs
  {
    TextsInKidsMembers(cs, base, r);
  }

  /** The walker visits in document order. */
  lemma {:induction false} TextsInSorted(n: Node)
    ensures Sorted(TextsIn(n))
    decreases n, 1
  {
    match n
    case Element(_, _, _, _, cs) => TextsInKidsSorted(cs, 0);
    case Document(cs) => TextsInKidsSorted(cs, 0);
    case _ =>
  }

  lemma {:induction false} TextsInKidsSorted(cs: seq<Node>, base: nat)
    ensures Sorted(TextsInKids(cs, base))
    decreases cs, 0
  {
    if cs != [] {
      var head := if cs[0].Text? then [[base]] else Under(base, TextsIn(cs[0]));
      var tail := TextsInKids(cs[1..], base + 1);
      if !cs[0].Text? {
        TextsInSorted(cs[0]);
        UnderSorted(base, TextsIn(cs[0]));
      }
      TextsInKidsSorted(cs[1..], base + 1);
      forall a, b | a in head && b in tail ensures LexLess(a, b) {
        TextsInKidsRange(cs[1..], base + 1, b);
        assert a[0] == base;
        assert |a| > 0 && a[0] < b[0];
      }
      ConcatSorted(head, tail);
    }
  }

  lemma {:induction false} UnderSorted(j: nat, ps: seq<Pos>)
    requires Sorted(ps)
    ensures Sorted(Under(j, ps))
  {
    forall a, b | 0 <= a < b < |ps| ensures LexLess(Under(j, ps)[a], Under(j, ps)[b]) {
      PrependKeepsOrder(j, ps[a], ps[b]);
    }
  }

  lemma {:induction false} ConcatSorted(a: seq<Pos>, b: seq<Pos>)
    requires Sorted(a) && Sorted(b)
    requires forall x, y :: x in a && y in b ==> LexLess(x, y)
    ensures Sorted(a + b)
  {
    var s := a + b;
    forall i, j | 0 <= i < j < |s| ensures LexLess(s[i], s[j]) {
      if j < |a| {
        assert s[i] == a[i] && s[j] == a[j];
      } else if i >= |a| {
        assert s[i] == b[i - |a|] && s[j] == b[j - |a|];
      } else {
        assert s[i] in a && s[j] in b;
      }
    }
  }

  // ---------------------------------------------------------------------------
  // getTextNodesInRange

  /** Every position moved below the position `c`. */
  function Prefixed(c: Pos, ps: seq<Pos>): (r: seq<Pos>)
    ensures |r| == |ps| && forall k :: 0 <= k < |ps| ==> r[k] == c + ps[k]
  {
    seq(|ps|, k requires 0 <= k < |ps| => c + ps[k])
  }

  /** The walker rooted at `ca`: the text nodes below it, as positions in the document. */
  function Walk(root: Node, ca: Pos): seq<Pos>
    requires ValidPos(root, ca)
  {
    Prefixed(ca, TextsIn(NodeAt(root, ca)))
  }

  /** The positions of `ts` that intersect the range, in order. */
  function Intersecting(rng: Range, ts: seq<Pos>): seq<Pos> {
    if ts == [] then []
    else (if Intersects(rng, ts[0]) then [ts[0]] else []) + Intersecting(rng, ts[1..])
  }

  lemma {:induction false} IntersectingStep(rng: Range, ts: seq<Pos>, k: nat)
    requires k < |ts|
    ensures Intersecting(rng, ts[k..]) == (if Intersects(rng, ts[k]) then [ts[k]] else []) + Intersecting(rng, ts[k + 1..])
  {
    assert ts[k..][1..] == ts[k + 1..];
  }

  lemma {:induction false} Assoc<T>(a: seq<T>, b: seq<T>, c: seq<T>)
    ensures a + (b + c) == (a + b) + c
  {
  }

  /** Whether the single-text-node fast path is taken. */
  predicate SingleText(root: Node, rng: Range)
    requires ValidPos(root, rng.start.node)
  {
    rng.start.node == rng.end.node && NodeAt(root, rng.start.node).Text?
  }

  /**
   * What `getTextNodesInRange` returns: for a range inside one text node,
   * that node when it has text and the range is not collapsed or reversed;
   * otherwise the text nodes below the common ancestor that intersect the
   * range, in document order.
   */
  function TextNodesInRange(root: Node, rng: Range): seq<Pos>
    requires ValidRange(root, rng)
  {
    if SingleText(root, rng) then
      if NodeAt(root, rng.start.node).content != "" && rng.end.offset > rng.start.offset then [rng.start.node] else []
    else
      PrefixValid(root, rng.start.node, |CommonAncestor(rng)|);
      assert rng.start.node[..|CommonAncestor(rng)|] == CommonAncestor(rng);
      Intersecting(rng, Walk(root, CommonAncestor(rng)))
  }

  /** The walker loop: visit every text node below the common ancestor and keep those the range intersects. */
  method GetTextNodesInRange(root: Node, rng: Range) returns (textNodes: seq<Pos>)
    requires ValidRange(root, rng)
    ensures textNodes == TextNodesInRange(root, rng)
  {
    if rng.start.node == rng.end.node && NodeAt(root, rng.start.node).Text? {
      textNodes := [];
      if NodeAt(root, rng.start.node).content != "" && rng.end.offset > rng.start.offset {
        textNodes := [rng.start.node];
      }
      return;
    }
    var ca := CommonAncestor(rng);
    PrefixValid(root, rng.start.node, |ca|);
    assert rng.start.node[..|ca|] == ca;
    var walk := Walk(root, ca);
    textNodes := [];
    var k := 0;
    while k < |walk|
      invariant 0 <= k <= |walk|
      invariant textNodes + Intersecting(rng, walk[k..]) == Intersecting(rng, walk)
    {
      IntersectingStep(rng, walk, k);
      if Intersects(rng, walk[k]) {
        Assoc(textNodes, [walk[k]], Intersecting(rng, walk[k + 1..]));
        textNodes := textNodes + [walk[k]];
      } else {
        assert [] + Intersecting(rng, walk[k + 1..]) == Intersecting(rng, walk[k + 1..]);
      }
      k := k + 1;
    }
  }

  // ---------------------------------------------------------------------------
  // What getTextNodesInRange returns

  lemma {:induction false} IntersectingMembers(rng: Range, ts: seq<Pos>, t: Pos)
    ensures t in Intersecting(rng, ts) <==> t in ts && Intersects(rng, t)
    decreases |ts|
  {
    if ts != [] {
      IntersectingMembers(rng, ts[1..], t);
      assert ts == [ts[0]] + ts[1..];
    }
  }

  /** Keeping some of a sorted list keeps it sorted. */
  lemma {:induction false} IntersectingSorted(rng: Range, ts: seq<Pos>)
    requires Sorted(ts)
    ensures Sorted(Intersecting(rng, ts))
    decreases |ts|
  {
    if ts != [] {
      IntersectingSorted(rng, ts[1..]);
      var rest := Intersecting(rng, ts[1..]);
      forall y | y in rest ensures LexLess(ts[0], y) {
        IntersectingMembers(rng, ts[1..], y);
        var k :| 0 <= k < |ts[1..]| && ts[1..][k] == y;
        assert ts[k + 1] == y;
      }
      ConcatSorted(if Intersects(rng, ts[0]) then [ts[0]] else [], rest);
    }
  }

  /** The same prefix in front keeps the order. */
  lemma {:induction false} PrefixKeepsOrder(c: seq<nat>, a: seq<nat>, b: seq<nat>)
    ensures LexLess(c + a, c + b) <==> LexLess(a, b)
    decreases |c|
  {
    if |c| > 0 {
      assert (c + a)[0] == c[0] == (c + b)[0];
      assert (c + a)[1..] == c[1..] + a && (c + b)[1..] == c[1..] + b;
      PrefixKeepsOrder(c[1..], a, b);
    } else {
      assert c + a == a && c + b == b;
    }
  }

  lemma {:induction false} PrefixedMembers(c: Pos, ps: seq<Pos>, t: Pos)
    ensures t in Prefixed(c, ps) <==> |t| >= |c| && t[..|c|] == c && t[|c|..] in ps
  {
    if t in Prefixed(c, ps) {
      var k :| 0 <= k < |ps| && Prefixed(c, ps)[k] == t;
      assert t[..|c|] == c && t[|c|..] == ps[k];
    }
    if |t| >= |c| && t[..|c|] == c && t[|c|..] in ps {
      var k :| 0 <= k < |ps| && ps[k] == t[|c|..];
      assert Prefixed(c, ps)[k] == t;
    }
  }

  lemma {:induction false} PrefixedSorted(c: Pos, ps: seq<Pos>)
    requires Sorted(ps)
    ensures Sorted(Prefixed(c, ps))
  {
    forall i, j | 0 <= i < j < |ps| ensures LexLess(Prefixed(c, ps)[i], Prefixed(c, ps)[j]) {
      PrefixKeepsOrder(c, ps[i], ps[j]);
    }
  }

  /** A text node strictly below `ca`, seen from `ca` or from the root. */
  lemma {:induction false} TextBelow(root: Node, ca: Pos, r: Pos)
    requires ValidPos(root, ca)
    ensures (|r| > 0 && ValidPos(NodeAt(root, ca), r) && NodeAt(NodeAt(root, ca), r).Text?) <==>
      (|ca + r| > |ca| && ValidPos(root, ca + r) && NodeAt(root, ca + r).Text?)
  {
    NodeAtAppend(root, ca, r);
  }

  /** The walker visits exactly the text nodes strictly below `ca`. */
  lemma {:induction false} WalkMembers(root: Node, ca: Pos, t: Pos)
    requires ValidPos(root, ca)
    ensures t in Walk(root, ca) <==>
      |t| > |ca| && t[..|ca|] == ca && ValidPos(root, t) && NodeAt(root, t).Text?
  {
    var n := NodeAt(root, ca);
    PrefixedMembers(ca, TextsIn(n), t);
    if |t| >= |ca| && t[..|ca|] == ca {
      var r := t[|ca|..];
      assert t == ca + r;
      TextsInMembers(n, r);
      TextBelow(root, ca, r);
    }
  }

  /** The walker visits in document order. */
  lemma {:induction false} WalkSorted(root: Node, ca: Pos)
    requires ValidPos(root, ca)
    ensures Sorted(Walk(root, ca))
  {
    TextsInSorted(NodeAt(root, ca));
    PrefixedSorted(ca, TextsIn(NodeAt(root, ca)));
  }

  /** A proper ancestor of a node has children. */
  lemma {:induction false} AncestorHasKids(root: Node, p: Pos, k: nat)
    requires ValidPos(root, p) && k < |p|
    ensures ValidPos(root, p[..k]) && HasKids(NodeAt(root, p[..k]))
  {
    assert p == p[..k] + p[k..];
    NodeAtAppend(root, p[..k], p[k..]);
  }

  /** Off the fast path, the common ancestor is not a text node. */
  lemma {:induction false} CommonAncestorNotText(root: Node, rng: Range)
    requires ValidRange(root, rng) && !SingleText(root, rng)
    ensures ValidPos(root, CommonAncestor(rng)) && !NodeAt(root, CommonAncestor(rng)).Text?
  {
    var s, e := rng.start.node, rng.end.node;
    var c := CommonLen(s, e);
    if c < |s| {
      AncestorHasKids(root, s, c);
    } else if c < |e| {
      assert e[..c] == s;
      AncestorHasKids(root, e, c);
    } else {
      assert s == s[..c] == e[..c] == e;
    }
  }

  /**
   * Order argument behind `IntersectsBelowCommonAncestor`: a position before
   * `ek` whose successor is after `sk`, where both keys extend `ca`, extends
   * `ca` too unless it is a prefix of `ca`.
   */
  lemma {:induction false} BetweenExtends(t: seq<nat>, ca: seq<nat>, sk: seq<nat>, ek: seq<nat>)
    requires |t| > 0 && |ca| < |sk| && |ca| < |ek| && sk[..|ca|] == ca && ek[..|ca|] == ca
    requires LexLess(t, ek) && LexLess(sk, t[|t| - 1 := t[|t| - 1] + 1])
    requires !(|t| <= |ca| && ca[..|t|] == t)
    ensures |t| > |ca| && t[..|ca|] == ca
  {
    var t' := t[|t| - 1 := t[|t| - 1] + 1];
    var c := CommonLen(t, ca);
    if c < |ca| {
      assert c < |t|;
      if t[c] > ca[c] {
        assert ek[..c] == t[..c] && ek[c] == ca[c];
        DiffDecides(ek, t, c);
        LexAsymmetric(ek, t);
      } else if c < |t| - 1 || t'[c] < ca[c] {
        assert t'[..c] == t[..c] == sk[..c] && sk[c] == ca[c];
        DiffDecides(t', sk, c);
        LexAsymmetric(t', sk);
      } else {
        assert t' == sk[..c + 1];
        PrefixFirst(t', sk);
      }
    }
  }

  lemma {:induction false} FullPrefix(a: seq<nat>, b: seq<nat>)
    requires |a| == |b|
    ensures a[..|b|] == b <==> a == b
  {
  }

  /** Both boundary keys extend the common ancestor. */
  lemma {:induction false} CommonAncestorKeys(rng: Range)
    ensures var ca := CommonAncestor(rng);
      |ca| < |Key(rng.start)| && Key(rng.start)[..|ca|] == ca &&
      |ca| < |Key(rng.end)| && Key(rng.end)[..|ca|] == ca
  {
    var ca := CommonAncestor(rng);
    assert Key(rng.start)[..|ca|] == rng.start.node[..|ca|];
    assert Key(rng.end)[..|ca|] == rng.end.node[..|ca|];
  }

  /** `intersectsNode` on a node with a parent, as an order between keys. */
  lemma {:induction false} IntersectsOrder(rng: Range, t: Pos)
    requires |t| > 0 && Intersects(rng, t)
    ensures LexLess(t, Key(rng.end)) && LexLess(Key(rng.start), t[|t| - 1 := t[|t| - 1] + 1])
  {
    IntersectsKeys(rng, t);
  }

  /** Off the fast path, every text node the range intersects lies strictly below the common ancestor. */
  lemma {:induction false} IntersectsBelowCommonAncestor(root: Node, rng: Range, t: Pos)
    requires ValidRange(root, rng) && !SingleText(root, rng)
    requires ValidPos(root, t) && NodeAt(root, t).Text? && |t| > 0 && Intersects(rng, t)
    ensures var ca := CommonAncestor(rng); |t| > |ca| && t[..|ca|] == ca
  {
    var ca := CommonAncestor(rng);
    CommonAncestorNotText(root, rng);
    if |t| < |ca| && ca[..|t|] == t {
      AncestorHasKids(root, ca, |t|);
    } else if |t| == |ca| {
      FullPrefix(ca, t);
    }
    CommonAncestorKeys(rng);
    IntersectsOrder(rng, t);
    BetweenExtends(t, ca, Key(rng.start), Key(rng.end));
  }

  /** In the fast path the text node holding the range intersects it. */
  lemma {:induction false} SingleTextIntersects(root: Node, rng: Range)
    requires ValidRange(root, rng) && SingleText(root, rng)
    ensures Intersects(rng, rng.start.node)
  {
    var s := rng.start.node;
    if |s| > 0 {
      IntersectsKeys(rng, s);
      assert Key(rng.end)[..|s|] == s;
      PrefixFirst(s, Key(rng.end));
      var s' := s[|s| - 1 := s[|s| - 1] + 1];
      var d := |s| - 1;
      assert Key(rng.start)[..d] == s'[..d] && Key(rng.start)[d] < s'[d];
      DiffDecides(Key(rng.start), s', d);
    }
  }

  /**
   * `getTextNodesInRange` returns only text nodes the range intersects, in
   * document order; off the single-text-node fast path it returns every
   * text node with a parent that the range intersects.
   */
  lemma {:induction false} TextNodesInRangeExact(root: Node, rng: Range, t: Pos)
    requires ValidRange(root, rng)
    ensures Sorted(TextNodesInRange(root, rng))
    ensures t in TextNodesInRange(root, rng) ==> ValidPos(root, t) && NodeAt(root, t).Text? && Intersects(rng, t)
    ensures !SingleText(root, rng) ==>
      (t in TextNodesInRange(root, rng) <==> |t| > 0 && ValidPos(root, t) && NodeAt(root, t).Text? && Intersects(rng, t))
  {
    if SingleText(root, rng) {
      SingleTextIntersects(root, rng);
    } else {
      var ca := CommonAncestor(rng);
      CommonAncestorNotText(root, rng);
      WalkMembers(root, ca, t);
      WalkSorted(root, ca);
      IntersectingMembers(rng, Walk(root, ca), t);
      IntersectingSorted(rng, Walk(root, ca));
      if |t| > 0 && ValidPos(root, t) && NodeAt(root, t).Text? && Intersects(rng, t) {
        IntersectsBelowCommonAncestor(root, rng, t);
      }
    }
  }
}
