/**
 * The page's node tree as a value. A node is addressed by its position: the
 * sequence of child indices that leads to it from the root, so `[]` is the
 * root itself and `p + [i]` is the i-th child of the node at `p`.
 *
 * The live DOM mutations the content script performs (`replaceChild`,
 * `insertBefore`, `removeChild`, dataset edits, `normalize`) are functions from
 * the old tree to the new one.
 */
module Dom {

  type Pos = seq<nat>

  /** The class name every styled container carries. */
  const HighlightClass := "annotate-highlight"

  /**
   * `Element.data` is the element's dataset (`data-*` attributes by their
   * camel-case DOMStringMap name); `id` is the empty string when the element
   * has no id. `Comment` stands for every node kind that is neither a text
   * node nor an element nor the document.
   */
  datatype Node =
    | Text(content: string)
    | Comment(content: string)
    | Element(tag: string, id: string, classes: set<string>, data: map<string, string>, children: seq<Node>)
    | Document(children: seq<Node>)

  predicate HasKids(n: Node) {
    n.Element? || n.Document?
  }

  function Kids(n: Node): seq<Node> {
    if HasKids(n) then n.children else []
  }

  function WithKids(n: Node, cs: seq<Node>): (r: Node)
    ensures HasKids(n) ==> HasKids(r) && Kids(r) == cs
  {
    match n
    case Element(t, i, c, d, _) => Element(t, i, c, d, cs)
    case Document(_) => Document(cs)
    case _ => n
  }

  function Parent(p: Pos): Pos
    requires |p| > 0
  {
    p[..|p| - 1]
  }

  function Last(p: Pos): nat
    requires |p| > 0
  {
    p[|p| - 1]
  }

  ghost predicate IsPrefix(a: Pos, b: Pos) {
    |a| <= |b| && b[..|a|] == a
  }

  predicate ValidPos(root: Node, p: Pos)
    decreases |p|
  {
    |p| == 0 || (p[0] < |Kids(root)| && ValidPos(Kids(root)[p[0]], p[1..]))
  }

  function NodeAt(root: Node, p: Pos): Node
    requires ValidPos(root, p)
    decreases |p|
  {
    if |p| == 0 then root else NodeAt(Kids(root)[p[0]], p[1..])
  }

  /** The tree with the node at `p` replaced by `n`. */
  function SetAt(root: Node, p: Pos, n: Node): Node
    requires ValidPos(root, p)
    decreases |p|
  {
    if |p| == 0 then n
    else WithKids(root, Kids(root)[p[0] := SetAt(Kids(root)[p[0]], p[1..], n)])
  }

  // ---------------------------------------------------------------------------
  // Positions

  lemma {:induction false} NodeAtAppend(root: Node, p: Pos, r: Pos)
    ensures ValidPos(root, p + r) <==> ValidPos(root, p) && ValidPos(NodeAt(root, p), r)
    ensures ValidPos(root, p + r) ==> NodeAt(root, p + r) == NodeAt(NodeAt(root, p), r)
    decreases |p|
  {
    if |p| > 0 {
      assert (p + r)[0] == p[0] && (p + r)[1..] == p[1..] + r;
      if p[0] < |Kids(root)| {
        NodeAtAppend(Kids(root)[p[0]], p[1..], r);
      }
    } else {
      assert p + r == r;
    }
  }

  /** The child step: `p + [i]` is valid exactly when `i` indexes a child of the node at `p`. */
  lemma {:induction false} NodeAtChild(root: Node, p: Pos, i: nat)
    ensures ValidPos(root, p + [i]) <==> ValidPos(root, p) && i < |Kids(NodeAt(root, p))|
    ensures ValidPos(root, p + [i]) ==> NodeAt(root, p + [i]) == Kids(NodeAt(root, p))[i]
  {
    NodeAtAppend(root, p, [i]);
  }

  lemma {:induction false} ParentValid(root: Node, p: Pos)
    requires ValidPos(root, p) && |p| > 0
    ensures ValidPos(root, Parent(p)) && Last(p) < |Kids(NodeAt(root, Parent(p)))|
    ensures NodeAt(root, p) == Kids(NodeAt(root, Parent(p)))[Last(p)]
  {
    assert p == Parent(p) + [Last(p)];
    NodeAtChild(root, Parent(p), Last(p));
  }

  lemma {:induction false} PrefixValid(root: Node, p: Pos, k: nat)
    requires ValidPos(root, p) && k <= |p|
    ensures ValidPos(root, p[..k])
  {
    assert p == p[..k] + p[k..];
    NodeAtAppend(root, p[..k], p[k..]);
  }

  /** A text or comment node has no descendants. */
  lemma {:induction false} LeafHasNoBelow(root: Node, p: Pos, r: Pos)
    requires ValidPos(root, p) && !HasKids(NodeAt(root, p)) && ValidPos(root, p + r)
    ensures r == []
  {
    NodeAtAppend(root, p, r);
  }

  // ---------------------------------------------------------------------------
  // Replacing a node

  lemma {:induction false} SetAtSelf(root: Node, p: Pos, n: Node)
    requires ValidPos(root, p)
    ensures ValidPos(SetAt(root, p, n), p) && NodeAt(SetAt(root, p, n), p) == n
    decreases |p|
  {
    if |p| > 0 {
      SetAtSelf(Kids(root)[p[0]], p[1..], n);
    }
  }

  /** Replacing the node at `p` and then at `p` again is the second replacement alone. */
  lemma {:induction false} SetAtTwice(root: Node, p: Pos, a: Node, b: Node)
    requires ValidPos(root, p)
    ensures ValidPos(SetAt(root, p, a), p)
    ensures SetAt(SetAt(root, p, a), p, b) == SetAt(root, p, b)
    decreases |p|
  {
    SetAtSelf(root, p, a);
    if |p| > 0 {
      SetAtTwice(Kids(root)[p[0]], p[1..], a, b);
    }
  }

  /** Replacing the node at `p` by itself changes nothing. */
  lemma {:induction false} SetAtSame(root: Node, p: Pos)
    requires ValidPos(root, p)
    ensures SetAt(root, p, NodeAt(root, p)) == root
    decreases |p|
  {
    if |p| > 0 {
      SetAtSame(Kids(root)[p[0]], p[1..]);
      assert Kids(root)[p[0] := Kids(root)[p[0]]] == Kids(root);
    }
  }

  /** Nodes that are neither ancestors nor descendants of `p` keep their place and value. */
  lemma {:induction false} SetAtElsewhere(root: Node, p: Pos, n: Node, q: Pos)
    requires ValidPos(root, p) && ValidPos(root, q)
    requires !IsPrefix(p, q) && !IsPrefix(q, p)
    ensures ValidPos(SetAt(root, p, n), q) && NodeAt(SetAt(root, p, n), q) == NodeAt(root, q)
    decreases |p|
  {
    assert |p| > 0 && |q| > 0;
    if p[0] == q[0] {
      assert !IsPrefix(p[1..], q[1..]) && !IsPrefix(q[1..], p[1..]);
      SetAtElsewhere(Kids(root)[p[0]], p[1..], n, q[1..]);
    }
  }

  /** What lies below `p` after the replacement lies below `n`. */
  lemma {:induction false} SetAtBelow(root: Node, p: Pos, n: Node, r: Pos)
    requires ValidPos(root, p)
    ensures ValidPos(SetAt(root, p, n), p + r) <==> ValidPos(n, r)
    ensures ValidPos(n, r) ==> NodeAt(SetAt(root, p, n), p + r) == NodeAt(n, r)
  {
    SetAtSelf(root, p, n);
    NodeAtAppend(SetAt(root, p, n), p, r);
  }

  /** An ancestor `q` of `p` becomes its old value with the change applied below it. */
  lemma {:induction false} SetAtAbove(root: Node, p: Pos, n: Node, k: nat)
    requires ValidPos(root, p) && k <= |p|
    ensures ValidPos(root, p[..k]) && ValidPos(NodeAt(root, p[..k]), p[k..])
    ensures ValidPos(SetAt(root, p, n), p[..k])
    ensures NodeAt(SetAt(root, p, n), p[..k]) == SetAt(NodeAt(root, p[..k]), p[k..], n)
    decreases |p|
  {
    PrefixValid(root, p, k);
    assert p == p[..k] + p[k..];
    NodeAtAppend(root, p[..k], p[k..]);
    if k > 0 {
      assert p[..k][1..] == p[1..][..k - 1];
      assert p[k..] == p[1..][k - 1..];
      SetAtAbove(Kids(root)[p[0]], p[1..], n, k - 1);
    }
  }

  // ---------------------------------------------------------------------------
  // Splicing a sequence of nodes into a child's slot (`replaceChild` with a
  // document fragment, and the unwrap loop of `insertBefore` calls). A child
  // is named by its parent's position `q` and its index `i` there.

  /** The node at `q` has a child at index `i`. */
  predicate ValidSlot(root: Node, q: Pos, i: nat) {
    ValidPos(root, q) && i < |Kids(NodeAt(root, q))|
  }

  function ChildAt(root: Node, q: Pos, i: nat): Node
    requires ValidSlot(root, q, i)
  {
    Kids(NodeAt(root, q))[i]
  }

  /** The children `cs` with the child at `i` replaced by `frag`. */
  function SpliceKids(cs: seq<Node>, i: nat, frag: seq<Node>): (r: seq<Node>)
    requires i < |cs|
    ensures |r| == |cs| - 1 + |frag|
    ensures r[..i] == cs[..i] && r[i..i + |frag|] == frag && r[i + |frag|..] == cs[i + 1..]
  {
    cs[..i] + frag + cs[i + 1..]
  }

  /** The tree with child `i` of the node at `q` replaced by the nodes `frag`, in order. */
  function Splice(root: Node, q: Pos, i: nat, frag: seq<Node>): Node
    requires ValidSlot(root, q, i)
  {
    var P := NodeAt(root, q);
    SetAt(root, q, WithKids(P, SpliceKids(Kids(P), i, frag)))
  }

  /** `r` is child `i` of the node at `q`, or lies below it. */
  ghost predicate InSlot(r: Pos, q: Pos, i: nat) {
    |r| > |q| && r[..|q|] == q && r[|q|] == i
  }

  /**
   * Where a node at `r` sits after child `i` of the node at `q` is replaced
   * by `m` nodes: later siblings, and everything below them, move `m - 1`
   * places.
   */
  function Shifted(r: Pos, q: Pos, i: nat, m: nat): Pos
    requires m >= 1
  {
    if |r| > |q| && r[..|q|] == q && r[|q|] > i then r[|q| := r[|q|] + m - 1] else r
  }

  /** The part of `Splice` every caller needs: the parent's new children. */
  lemma {:induction false} SpliceParent(root: Node, q: Pos, i: nat, frag: seq<Node>)
    requires ValidSlot(root, q, i)
    ensures HasKids(NodeAt(root, q)) && ValidPos(Splice(root, q, i, frag), q)
    ensures NodeAt(Splice(root, q, i, frag), q) ==
      WithKids(NodeAt(root, q), SpliceKids(Kids(NodeAt(root, q)), i, frag))
  {
    var P := NodeAt(root, q);
    SetAtSelf(root, q, WithKids(P, SpliceKids(Kids(P), i, frag)));
  }

  /** A path that starts with a child step. */
  lemma {:induction false} ChildPath(n: Node, t: Pos)
    requires |t| > 0
    ensures ValidPos(n, t) <==> t[0] < |Kids(n)| && ValidPos(Kids(n)[t[0]], t[1..])
    ensures ValidPos(n, t) ==> NodeAt(n, t) == NodeAt(Kids(n)[t[0]], t[1..])
  {
  }

  /** The children after a splice: earlier siblings keep their index, later ones move `|frag| - 1` places. */
  lemma {:induction false} SpliceKidsKeeps(cs: seq<Node>, i: nat, frag: seq<Node>, j: nat)
    requires i < |cs| && j < |cs| && j != i && |frag| >= 1
    ensures var j' := if j > i then j + |frag| - 1 else j;
      j' < |SpliceKids(cs, i, frag)| && SpliceKids(cs, i, frag)[j'] == cs[j]
  {
    var ks := SpliceKids(cs, i, frag);
    if j < i {
      assert ks[..i][j] == cs[..i][j];
    } else {
      assert ks[i + |frag|..][j - i - 1] == cs[i + 1..][j - i - 1];
    }
  }

  /** Below a splice: a path into another child leads to the same node, its first step shifted past `frag`. */
  lemma {:induction false} SpliceKidsPath(P: Node, i: nat, frag: seq<Node>, t: Pos)
    requires HasKids(P) && i < |Kids(P)| && |frag| >= 1
    requires |t| > 0 && t[0] != i && ValidPos(P, t)
    ensures var t' := if t[0] > i then t[0 := t[0] + |frag| - 1] else t;
      var n := WithKids(P, SpliceKids(Kids(P), i, frag));
      ValidPos(n, t') && NodeAt(n, t') == NodeAt(P, t)
  {
    var n := WithKids(P, SpliceKids(Kids(P), i, frag));
    var t' := if t[0] > i then t[0 := t[0] + |frag| - 1] else t;
    ChildPath(P, t);
    SpliceKidsKeeps(Kids(P), i, frag, t[0]);
    assert t'[1..] == t[1..];
    ChildPath(n, t');
  }

  /**
   * Splicing never disturbs a node outside the replaced child: each other
   * node that is not an ancestor of the slot is found, unchanged, at its
   * shifted position.
   */
  lemma {:induction false} SpliceKeepsOthers(root: Node, q: Pos, i: nat, frag: seq<Node>, r: Pos)
    requires ValidSlot(root, q, i) && |frag| >= 1
    requires ValidPos(root, r) && !InSlot(r, q, i) && !IsPrefix(r, q)
    ensures ValidPos(Splice(root, q, i, frag), Shifted(r, q, i, |frag|))
    ensures NodeAt(Splice(root, q, i, frag), Shifted(r, q, i, |frag|)) == NodeAt(root, r)
  {
    var P := NodeAt(root, q);
    var n := WithKids(P, SpliceKids(Kids(P), i, frag));
    if |r| > |q| && r[..|q|] == q {
      var t := r[|q|..];
      var t' := if t[0] > i then t[0 := t[0] + |frag| - 1] else t;
      assert r == q + t;
      assert Shifted(r, q, i, |frag|) == q + t';
      NodeAtAppend(root, q, t);
      SpliceKidsPath(P, i, frag, t);
      SetAtBelow(root, q, n, t');
    } else {
      assert Shifted(r, q, i, |frag|) == r;
      SetAtElsewhere(root, q, n, r);
    }
  }

  /** Shifting is one-to-one on the positions a splice keeps. */
  lemma {:induction false} ShiftedInjective(r1: Pos, r2: Pos, q: Pos, i: nat, m: nat)
    requires m >= 1 && !InSlot(r1, q, i) && !InSlot(r2, q, i)
    requires Shifted(r1, q, i, m) == Shifted(r2, q, i, m)
    ensures r1 == r2
  {
    var d := |q|;
    var s1 := |r1| > d && r1[..d] == q && r1[d] > i;
    var s2 := |r2| > d && r2[..d] == q && r2[d] > i;
    var w1 := Shifted(r1, q, i, m);
    var w2 := Shifted(r2, q, i, m);
    if s1 && s2 {
      assert |r1| == |r2|;
      forall k | 0 <= k < |r1| ensures r1[k] == r2[k] {
        if k == d {
          assert w1[d] == r1[d] + m - 1 && w2[d] == r2[d] + m - 1;
        } else {
          assert w1[k] == r1[k] && w2[k] == r2[k];
        }
      }
    }
  }

  // ---------------------------------------------------------------------------
  // Text content

  /** The data of all text nodes below `n`, in tree order (what `textContent` reads). */
  function TextOf(n: Node): string
    decreases n, 1
  {
    match n
    case Text(c) => c
    case Comment(_) => ""
    case Element(_, _, _, _, cs) => TextOfSeq(cs)
    case Document(cs) => TextOfSeq(cs)
  }

  function TextOfSeq(cs: seq<Node>): string
    decreases cs, 0
  {
    if cs == [] then "" else TextOf(cs[0]) + TextOfSeq(cs[1..])
  }

  lemma {:induction false} TextOfSeqAppend(a: seq<Node>, b: seq<Node>)
    ensures TextOfSeq(a + b) == TextOfSeq(a) + TextOfSeq(b)
    decreases |a|
  {
    if a == [] {
      assert a + b == b;
    } else {
      assert (a + b)[1..] == a[1..] + b;
      TextOfSeqAppend(a[1..], b);
    }
  }

  /** Replacing a node by one with the same text leaves the text of the whole tree unchanged. */
  lemma {:induction false} SetAtKeepsText(root: Node, p: Pos, n: Node)
    requires ValidPos(root, p) && TextOf(n) == TextOf(NodeAt(root, p))
    ensures TextOf(SetAt(root, p, n)) == TextOf(root)
    decreases |p|
  {
    if |p| > 0 {
      var cs := Kids(root);
      var i := p[0];
      SetAtKeepsText(cs[i], p[1..], n);
      var cs' := cs[i := SetAt(cs[i], p[1..], n)];
      assert cs == cs[..i] + [cs[i]] + cs[i + 1..];
      assert cs' == cs[..i] + [cs'[i]] + cs[i + 1..];
      TextOfSeqAppend(cs[..i] + [cs[i]], cs[i + 1..]);
      TextOfSeqAppend(cs[..i], [cs[i]]);
      TextOfSeqAppend(cs[..i] + [cs'[i]], cs[i + 1..]);
      TextOfSeqAppend(cs[..i], [cs'[i]]);
      assert TextOfSeq([cs[i]]) == TextOf(cs[i]);
      assert TextOfSeq([cs'[i]]) == TextOf(cs'[i]);
    }
  }

  /** Replacing a child by nodes carrying the same text leaves the text of the tree unchanged. */
  lemma {:induction false} SpliceKeepsText(root: Node, q: Pos, i: nat, frag: seq<Node>)
    requires ValidSlot(root, q, i) && TextOfSeq(frag) == TextOf(ChildAt(root, q, i))
    ensures TextOf(Splice(root, q, i, frag)) == TextOf(root)
  {
    var P := NodeAt(root, q);
    var cs := Kids(P);
    assert cs == cs[..i] + [cs[i]] + cs[i + 1..];
    TextOfSeqAppend(cs[..i] + [cs[i]], cs[i + 1..]);
    TextOfSeqAppend(cs[..i], [cs[i]]);
    TextOfSeqAppend(cs[..i] + frag, cs[i + 1..]);
    TextOfSeqAppend(cs[..i], frag);
    assert TextOfSeq([cs[i]]) == TextOf(cs[i]);
    SetAtKeepsText(root, q, WithKids(P, SpliceKids(cs, i, frag)));
  }

  /** The node `x` of a spliced-in fragment `pre + [x] + post` is the child `|pre|` places after the replaced one. */
  lemma {:induction false} SpliceChildAt(root: Node, q: Pos, i: nat, pre: seq<Node>, x: Node, post: seq<Node>)
    requires ValidSlot(root, q, i)
    ensures ValidSlot(Splice(root, q, i, pre + [x] + post), q, i + |pre|)
    ensures ChildAt(Splice(root, q, i, pre + [x] + post), q, i + |pre|) == x
  {
    var f := pre + [x] + post;
    SpliceParent(root, q, i, f);
    var ks := SpliceKids(Kids(NodeAt(root, q)), i, f);
    assert ks[i + |pre|] == f[|pre|] == x;
  }

  lemma {:induction false} WithKidsTwice(n: Node, a: seq<Node>, b: seq<Node>)
    ensures WithKids(WithKids(n, a), b) == WithKids(n, b)
  {
  }

  /** Hoisting the children of `x` out of `pre + [x] + post` in a slot is splicing `pre + Kids(x) + post` there. */
  lemma {:induction false} SpliceKidsHoist(cs: seq<Node>, i: nat, pre: seq<Node>, x: Node, post: seq<Node>)
    requires i < |cs|
    ensures var ks := SpliceKids(cs, i, pre + [x] + post);
      var j := i + |pre|;
      j < |ks| && ks[j] == x &&
      SpliceKids(ks, j, Kids(ks[j])) == SpliceKids(cs, i, pre + Kids(x) + post)
  {
    var a, b := cs[..i], cs[i + 1..];
    var ks := a + (pre + [x] + post) + b;
    var j := i + |pre|;
    ReplaceInside(a, pre, x, post, b, Kids(x));
    assert SpliceKids(cs, i, pre + [x] + post) == ks;
    assert SpliceKids(ks, j, Kids(x)) == ks[..j] + Kids(x) + ks[j + 1..];
    assert SpliceKids(cs, i, pre + Kids(x) + post) == a + (pre + Kids(x) + post) + b;
  }

  /**
   * Taking an element apart (the unwrap of `removeAnnotation` and
   * `resetAll`): child `j` of the node at `q` is replaced by its own
   * children, and the parent is then normalized.
   */
  function Unwrap(root: Node, q: Pos, j: nat): Node
    requires ValidSlot(root, q, j)
  {
    var P := NodeAt(root, q);
    SetAt(root, q, NormalizeNode(WithKids(P, SpliceKids(Kids(P), j, Kids(Kids(P)[j])))))
  }

  /**
   * Unwrapping the element `x` of a fragment `pre + [x] + post` that replaced
   * a text node gives the tree back, when the parent was normalized and the
   * fragment's text nodes, with the children of `x` in its place, spell the
   * replaced node's text.
   */
  lemma {:induction false} UnwrapUndoesSplice(root: Node, q: Pos, i: nat, pre: seq<Node>, x: Node, post: seq<Node>)
    requires ValidSlot(root, q, i) && ChildAt(root, q, i).Text?
    requires IsNormalized(NodeAt(root, q))
    requires var run := pre + Kids(x) + post;
      (forall k :: 0 <= k < |run| ==> run[k].Text?) && TextOfSeq(run) == ChildAt(root, q, i).content
    ensures var s := Splice(root, q, i, pre + [x] + post);
      ValidSlot(s, q, i + |pre|) && Unwrap(s, q, i + |pre|) == root
  {
    var P := NodeAt(root, q);
    var ks := SpliceKids(Kids(P), i, pre + [x] + post);
    var joined := SpliceKids(Kids(P), i, pre + Kids(x) + post);
    SetAtSelf(root, q, WithKids(P, ks));
    SpliceKidsHoist(Kids(P), i, pre, x, post);
    WithKidsTwice(P, ks, joined);
    SetAtTwice(root, q, WithKids(P, ks), NormalizeNode(WithKids(P, joined)));
    NormalizeBack(P, i, pre + Kids(x) + post);
    SetAtSame(root, q);
  }

  /** The same, for a tree `s` and slot `w` the caller has named. */
  lemma {:induction false} UnwrapUndoesSpliceAt(root: Node, q: Pos, i: nat, pre: seq<Node>, x: Node, post: seq<Node>, s: Node, w: nat)
    requires ValidSlot(root, q, i) && ChildAt(root, q, i).Text?
    requires IsNormalized(NodeAt(root, q))
    requires var run := pre + Kids(x) + post;
      (forall k :: 0 <= k < |run| ==> run[k].Text?) && TextOfSeq(run) == ChildAt(root, q, i).content
    requires s == Splice(root, q, i, pre + [x] + post) && w == i + |pre|
    ensures ValidSlot(s, q, w) && Unwrap(s, q, w) == root
  {
    UnwrapUndoesSplice(root, q, i, pre, x, post);
  }

  lemma {:induction false} NormalizeBack(P: Node, i: nat, run: seq<Node>)
    requires HasKids(P) && IsNormalized(P) && i < |Kids(P)| && Kids(P)[i].Text?
    requires forall k :: 0 <= k < |run| ==> run[k].Text?
    requires TextOfSeq(run) == Kids(P)[i].content
    ensures NormalizeNode(WithKids(P, SpliceKids(Kids(P), i, run))) == P
  {
    RunNormalizes(Kids(P), i, run);
  }

  // ---------------------------------------------------------------------------
  // Sequence facts, stated for any element type

  /** Replacing `x` inside `a + (pre + [x] + post) + b` by `k`. */
  lemma {:induction false} ReplaceInside<T>(a: seq<T>, pre: seq<T>, x: T, post: seq<T>, b: seq<T>, k: seq<T>)
    ensures var s := a + (pre + [x] + post) + b;
      var j := |a| + |pre|;
      j < |s| && s[j] == x && s[..j] + k + s[j + 1..] == a + (pre + k + post) + b
  {
    var s := a + (pre + [x] + post) + b;
    var j := |a| + |pre|;
    assert s[..j] == a + pre;
    assert s[j + 1..] == post + b;
  }

  /** The element after `a` in `a + [x] + b`, and what lies on either side of it. */
  lemma {:induction false} Around<T>(a: seq<T>, x: T, b: seq<T>)
    ensures |a| < |a + [x] + b| && (a + [x] + b)[|a|] == x
    ensures (a + [x] + b)[..|a|] == a && (a + [x] + b)[|a| + 1..] == b
  {
    assert (a + [x] + b)[..|a|] == a;
    assert (a + [x] + b)[|a| + 1..] == b;
  }


  /** Replacing a child by `frag` trades its containers for those of `frag`. */
  lemma {:induction false} SpliceHighlights(root: Node, q: Pos, i: nat, frag: seq<Node>)
    requires ValidSlot(root, q, i)
    ensures HighlightCount(Splice(root, q, i, frag)) + HighlightCount(ChildAt(root, q, i)) == HighlightCount(root) + HighlightCountSeq(frag)
  {
    var P := NodeAt(root, q);
    var cs := Kids(P);
    var ks := SpliceKids(cs, i, frag);
    SpliceKidsHighlights(cs, i, frag);
    HighlightCountWithKids(P, ks);
    SetAtHighlights(root, q, WithKids(P, ks));
  }

  lemma {:induction false} SpliceKidsHighlights(cs: seq<Node>, i: nat, frag: seq<Node>)
    requires i < |cs|
    ensures HighlightCountSeq(SpliceKids(cs, i, frag)) + HighlightCount(cs[i]) == HighlightCountSeq(cs) + HighlightCountSeq(frag)
  {
    assert cs == cs[..i] + [cs[i]] + cs[i + 1..];
    HighlightCountSeqAppend(cs[..i] + [cs[i]], cs[i + 1..]);
    HighlightCountSeqAppend(cs[..i], [cs[i]]);
    HighlightCountSeqAppend(cs[..i] + frag, cs[i + 1..]);
    HighlightCountSeqAppend(cs[..i], frag);
    assert HighlightCountSeq([cs[i]]) == HighlightCount(cs[i]) + HighlightCountSeq([]);
  }

  lemma {:induction false} HighlightCountWithKids(n: Node, cs: seq<Node>)
    requires HasKids(n)
    ensures HighlightCount(WithKids(n, cs)) + HighlightCountSeq(Kids(n)) == HighlightCount(n) + HighlightCountSeq(cs)
  {
  }

  // ---------------------------------------------------------------------------
  // normalize() (WHATWG DOM Standard, section 4.4): every maximal run of
  // adjacent text nodes becomes one node holding their concatenated data, and
  // is removed when that data is empty; descendants are normalized too.

  function NormalizeNode(n: Node): Node
    decreases n, 1
  {
    match n
    case Element(t, i, c, d, cs) => Element(t, i, c, d, NormalizeKids(cs))
    case Document(cs) => Document(NormalizeKids(cs))
    case _ => n
  }

  function NormalizeKids(cs: seq<Node>): seq<Node>
    decreases cs, 0
  {
    if cs == [] then [] else MergeText(NormalizeNode(cs[0]), NormalizeKids(cs[1..]))
  }

  /** Puts `c` in front of already normalized siblings, merging it into a leading text node. */
  function MergeText(c: Node, rest: seq<Node>): seq<Node> {
    if !c.Text? then [c] + rest
    else if |rest| > 0 && rest[0].Text? then [Text(c.content + rest[0].content)] + rest[1..]
    else if c.content == "" then rest
    else [c] + rest
  }

  /** No empty text node and no two adjacent text nodes, at any depth. */
  predicate IsNormalized(n: Node)
    decreases n, 1
  {
    match n
    case Element(_, _, _, _, cs) => KidsNormalized(cs)
    case Document(cs) => KidsNormalized(cs)
    case _ => true
  }

  predicate KidsNormalized(cs: seq<Node>)
    decreases cs, 0
  {
    cs == [] ||
    (IsNormalized(cs[0]) && KidsNormalized(cs[1..]) &&
     (cs[0].Text? ==> cs[0].content != "" && (|cs| > 1 ==> !cs[1].Text?)))
  }

  /** normalize() keeps the text content. */
  lemma {:induction false} NormalizeKeepsText(n: Node)
    ensures TextOf(NormalizeNode(n)) == TextOf(n)
    decreases n, 1
  {
    match n
    case Element(_, _, _, _, cs) => NormalizeKidsKeepsText(cs);
    case Document(cs) => NormalizeKidsKeepsText(cs);
    case _ =>
  }

  lemma {:induction false} NormalizeKidsKeepsText(cs: seq<Node>)
    ensures TextOfSeq(NormalizeKids(cs)) == TextOfSeq(cs)
    decreases cs, 0
  {
    if cs != [] {
      NormalizeKeepsText(cs[0]);
      NormalizeKidsKeepsText(cs[1..]);
      var c := NormalizeNode(cs[0]);
      var rest := NormalizeKids(cs[1..]);
      if c.Text? && |rest| > 0 && rest[0].Text? {
        assert rest == [rest[0]] + rest[1..];
        assert TextOfSeq(rest) == rest[0].content + TextOfSeq(rest[1..]);
      }
    }
  }

  /** normalize() leaves a normalized tree as it is. */
  /** What normalized siblings say about one of them and its neighbour. */
  lemma {:induction false} KidsNormalizedAt(cs: seq<Node>, k: nat)
    requires KidsNormalized(cs) && k < |cs|
    ensures IsNormalized(cs[k])
    ensures cs[k].Text? ==> cs[k].content != "" && (k + 1 < |cs| ==> !cs[k + 1].Text?)
    ensures KidsNormalized(cs[..k]) && KidsNormalized(cs[k + 1..])
    decreases k
  {
    if k > 0 {
      KidsNormalizedAt(cs[1..], k - 1);
      assert cs[1..][k - 1] == cs[k];
      assert cs[1..][k..] == cs[k + 1..];
      assert cs[..k][1..] == cs[1..][..k - 1];
      assert cs[..k][0] == cs[0];
    }
  }

  lemma {:induction false} NormalizeNormalized(n: Node)
    requires IsNormalized(n)
    ensures NormalizeNode(n) == n
    decreases n, 1
  {
    match n
    case Element(_, _, _, _, cs) => NormalizeKidsNormalized(cs);
    case Document(cs) => NormalizeKidsNormalized(cs);
    case _ =>
  }

  lemma {:induction false} NormalizeKidsNormalized(cs: seq<Node>)
    requires KidsNormalized(cs)
    ensures NormalizeKids(cs) == cs
    decreases cs, 0
  {
    if cs != [] {
      NormalizeNormalized(cs[0]);
      NormalizeKidsNormalized(cs[1..]);
      assert [cs[0]] + cs[1..] == cs;
    }
  }

  /** The result of normalize() is normalized. */
  lemma {:induction false} NormalizeIsNormalized(n: Node)
    ensures IsNormalized(NormalizeNode(n))
    decreases n, 1
  {
    match n
    case Element(_, _, _, _, cs) => NormalizeKidsIsNormalized(cs);
    case Document(cs) => NormalizeKidsIsNormalized(cs);
    case _ =>
  }

  lemma {:induction false} NormalizeKidsIsNormalized(cs: seq<Node>)
    ensures KidsNormalized(NormalizeKids(cs))
    decreases cs, 0
  {
    if cs != [] {
      NormalizeIsNormalized(cs[0]);
      NormalizeKidsIsNormalized(cs[1..]);
      var c := NormalizeNode(cs[0]);
      var rest := NormalizeKids(cs[1..]);
      if c.Text? && |rest| > 0 && rest[0].Text? {
        assert KidsNormalized(rest);
        assert rest[1..] == [] || !rest[1].Text?;
        var r := [Text(c.content + rest[0].content)] + rest[1..];
        assert r[1..] == rest[1..];
        assert KidsNormalized(r);
      } else if !c.Text? || c.content != "" {
        assert ([c] + rest)[1..] == rest;
      }
    }
  }

  /**
   * Normalizing siblings whose only text run is a sequence of text nodes
   * spelling the nonempty string `t` yields that run as the single node `Text(t)`.
   */
  lemma {:induction false} NormalizeTextRun(run: seq<Node>, t: string, rest: seq<Node>)
    requires forall k :: 0 <= k < |run| ==> run[k].Text?
    requires TextOfSeq(run) == t && t != ""
    requires KidsNormalized(rest) && (|rest| > 0 ==> !rest[0].Text?)
    ensures NormalizeKids(run + rest) == [Text(t)] + rest
    decreases |run|
  {
    assert run != [];
    var c := run[0];
    assert (run + rest)[0] == c && (run + rest)[1..] == run[1..] + rest;
    assert TextOfSeq(run) == c.content + TextOfSeq(run[1..]);
    if TextOfSeq(run[1..]) == "" {
      EmptyTextRun(run[1..], rest);
      NormalizeKidsNormalized(rest);
      assert c.content == t;
    } else {
      NormalizeTextRun(run[1..], TextOfSeq(run[1..]), rest);
    }
  }

  lemma {:induction false} EmptyTextRun(run: seq<Node>, rest: seq<Node>)
    requires forall k :: 0 <= k < |run| ==> run[k].Text?
    requires TextOfSeq(run) == ""
    ensures NormalizeKids(run + rest) == NormalizeKids(rest)
    decreases |run|
  {
    if run == [] {
      assert run + rest == rest;
    } else {
      assert (run + rest)[0] == run[0] && (run + rest)[1..] == run[1..] + rest;
      assert TextOfSeq(run) == run[0].content + TextOfSeq(run[1..]);
      assert |run[0].content| + |TextOfSeq(run[1..])| == 0;
      assert run[0].content == "";
      EmptyTextRun(run[1..], rest);
      var r := NormalizeKids(rest);
      assert NormalizeKids(run + rest) == MergeText(NormalizeNode(run[0]), r);
      if |r| > 0 && r[0].Text? {
        assert run[0].content + r[0].content == r[0].content;
        assert [Text(r[0].content)] + r[1..] == r;
      }
    }
  }

  /** In normalized siblings, a run of text nodes spelling the text node at `i` normalizes back to that node. */
  lemma {:induction false} RunNormalizes(cs: seq<Node>, i: nat, run: seq<Node>)
    requires KidsNormalized(cs) && i < |cs| && cs[i].Text?
    requires forall k :: 0 <= k < |run| ==> run[k].Text?
    requires TextOfSeq(run) == cs[i].content
    ensures NormalizeKids(cs[..i] + run + cs[i + 1..]) == cs
  {
    KidsNormalizedAt(cs, i);
    var rest := cs[i + 1..];
    NormalizeTextRun(run, cs[i].content, rest);
    SlotSplit(cs, i, run);
    if i > 0 {
      RunAfterPrefix(cs, i, run + rest);
    }
  }

  lemma {:induction false} SlotSplit(cs: seq<Node>, i: nat, run: seq<Node>)
    requires i < |cs|
    ensures cs[..i] + run + cs[i + 1..] == cs[..i] + (run + cs[i + 1..])
    ensures cs == cs[..i] + ([cs[i]] + cs[i + 1..])
    ensures i == 0 ==> cs[..i] + run + cs[i + 1..] == run + cs[i + 1..] && cs == [cs[i]] + cs[i + 1..]
  {
  }

  lemma {:induction false} RunAfterPrefix(cs: seq<Node>, i: nat, tail: seq<Node>)
    requires KidsNormalized(cs) && 0 < i < |cs| && cs[i].Text?
    ensures NormalizeKids(cs[..i] + tail) == cs[..i] + NormalizeKids(tail)
  {
    KidsNormalizedAt(cs, i - 1);
    KidsNormalizedAt(cs, i);
    assert cs[..i][i - 1] == cs[i - 1];
    NormalizeKidsAppend(cs[..i], tail);
    NormalizeKidsNormalized(cs[..i]);
  }

  lemma {:induction false} MergeTextAppend(c: Node, x: seq<Node>, y: seq<Node>)
    requires x != []
    ensures MergeText(c, x + y) == MergeText(c, x) + y
  {
    assert (x + y)[0] == x[0] && (x + y)[1..] == x[1..] + y;
  }

  /** Normalizing a concatenation whose left part ends in a non-text node works part by part. */
  lemma {:induction false} NormalizeKidsAppend(a: seq<Node>, b: seq<Node>)
    requires a != [] && !a[|a| - 1].Text?
    ensures NormalizeKids(a + b) == NormalizeKids(a) + NormalizeKids(b)
    decreases |a|
  {
    assert (a + b)[0] == a[0] && (a + b)[1..] == a[1..] + b;
    var c := NormalizeNode(a[0]);
    if |a| == 1 {
      assert !c.Text?;
      assert a[1..] + b == b;
      assert a[1..] == [];
    } else {
      assert a[1..][|a[1..]| - 1] == a[|a| - 1];
      NormalizeKidsAppend(a[1..], b);
      NormalizeKidsNonEmptyEnd(a[1..]);
      MergeTextAppend(c, NormalizeKids(a[1..]), NormalizeKids(b));
    }
  }

  /** Normalized siblings ending in a non-text node are nonempty. */
  lemma {:induction false} NormalizeKidsNonEmptyEnd(a: seq<Node>)
    requires a != [] && !a[|a| - 1].Text?
    ensures NormalizeKids(a) != []
    decreases |a|
  {
    if |a| > 1 {
      assert a[1..][|a[1..]| - 1] == a[|a| - 1];
      NormalizeKidsNonEmptyEnd(a[1..]);
    } else {
      assert !NormalizeNode(a[0]).Text?;
    }
  }

  // ---------------------------------------------------------------------------
  // Styled containers

  predicate IsHighlight(n: Node) {
    n.Element? && HighlightClass in n.classes
  }

  /** The number of styled containers in the tree. */
  function HighlightCount(n: Node): nat
    decreases n, 1
  {
    match n
    case Element(_, _, c, _, cs) => (if HighlightClass in c then 1 else 0) + HighlightCountSeq(cs)
    case Document(cs) => HighlightCountSeq(cs)
    case _ => 0
  }

  function HighlightCountSeq(cs: seq<Node>): nat
    decreases cs, 0
  {
    if cs == [] then 0 else HighlightCount(cs[0]) + HighlightCountSeq(cs[1..])
  }

  lemma {:induction false} HighlightCountSeqAppend(a: seq<Node>, b: seq<Node>)
    ensures HighlightCountSeq(a + b) == HighlightCountSeq(a) + HighlightCountSeq(b)
    decreases |a|
  {
    if a == [] {
      assert a + b == b;
    } else {
      assert (a + b)[1..] == a[1..] + b;
      HighlightCountSeqAppend(a[1..], b);
    }
  }

  lemma {:induction false} NormalizeKeepsHighlights(n: Node)
    ensures HighlightCount(NormalizeNode(n)) == HighlightCount(n)
    decreases n, 1
  {
    match n
    case Element(_, _, _, _, cs) => NormalizeKidsKeepsHighlights(cs);
    case Document(cs) => NormalizeKidsKeepsHighlights(cs);
    case _ =>
  }

  lemma {:induction false} NormalizeKidsKeepsHighlights(cs: seq<Node>)
    ensures HighlightCountSeq(NormalizeKids(cs)) == HighlightCountSeq(cs)
    decreases cs, 0
  {
    if cs != [] {
      NormalizeKeepsHighlights(cs[0]);
      NormalizeKidsKeepsHighlights(cs[1..]);
      var c := NormalizeNode(cs[0]);
      var rest := NormalizeKids(cs[1..]);
      if c.Text? && |rest| > 0 && rest[0].Text? {
        assert rest == [rest[0]] + rest[1..];
        assert HighlightCountSeq(rest) == HighlightCountSeq(rest[1..]);
      }
    }
  }

  lemma {:induction false} SetAtHighlights(root: Node, p: Pos, n: Node)
    requires ValidPos(root, p)
    ensures HighlightCount(SetAt(root, p, n)) + HighlightCount(NodeAt(root, p)) == HighlightCount(root) + HighlightCount(n)
    decreases |p|
  {
    if |p| > 0 {
      var cs := Kids(root);
      var i := p[0];
      SetAtHighlights(cs[i], p[1..], n);
      var cs' := cs[i := SetAt(cs[i], p[1..], n)];
      assert cs == cs[..i] + [cs[i]] + cs[i + 1..];
      assert cs' == cs[..i] + [cs'[i]] + cs[i + 1..];
      HighlightCountSeqAppend(cs[..i] + [cs[i]], cs[i + 1..]);
      HighlightCountSeqAppend(cs[..i], [cs[i]]);
      HighlightCountSeqAppend(cs[..i] + [cs'[i]], cs[i + 1..]);
      HighlightCountSeqAppend(cs[..i], [cs'[i]]);
      assert HighlightCountSeq([cs[i]]) == HighlightCount(cs[i]);
      assert HighlightCountSeq([cs'[i]]) == HighlightCount(cs'[i]);
    }
  }

  // ---------------------------------------------------------------------------
  // Well-formed documents

  /** A document node appears only at the root; elements and the document hold the rest. */
  predicate NoInnerDocument(n: Node)
    decreases n, 1
  {
    match n
    case Element(_, _, _, _, cs) => KidsNoDocument(cs)
    case Document(cs) => KidsNoDocument(cs)
    case _ => true
  }

  predicate KidsNoDocument(cs: seq<Node>)
    decreases cs, 0
  {
    cs == [] || (!cs[0].Document? && NoInnerDocument(cs[0]) && KidsNoDocument(cs[1..]))
  }

  lemma {:induction false} KidsNoDocumentAt(cs: seq<Node>, i: nat)
    requires i < |cs|
    ensures KidsNoDocument(cs) <==> KidsNoDocument(cs[..i]) && !cs[i].Document? && NoInnerDocument(cs[i]) && KidsNoDocument(cs[i + 1..])
    decreases i
  {
    if i > 0 {
      KidsNoDocumentAt(cs[1..], i - 1);
      assert cs[1..][..i - 1] == cs[..i][1..];
      assert cs[1..][i - 1] == cs[i] && cs[1..][i..] == cs[i + 1..];
    }
  }

  lemma {:induction false} KidsNoDocumentAppend(a: seq<Node>, b: seq<Node>)
    ensures KidsNoDocument(a + b) <==> KidsNoDocument(a) && KidsNoDocument(b)
    decreases |a|
  {
    if a == [] {
      assert a + b == b;
    } else {
      assert (a + b)[0] == a[0] && (a + b)[1..] == a[1..] + b;
      KidsNoDocumentAppend(a[1..], b);
    }
  }

  /** Below a document without inner documents, no node is a document. */
  lemma {:induction false} NoDocumentBelow(root: Node, p: Pos)
    requires NoInnerDocument(root) && ValidPos(root, p) && |p| > 0
    ensures !NodeAt(root, p).Document? && NoInnerDocument(NodeAt(root, p))
    decreases |p|
  {
    KidsNoDocumentAt(Kids(root), p[0]);
    if |p| > 1 {
      NoDocumentBelow(Kids(root)[p[0]], p[1..]);
    }
  }

  lemma {:induction false} NormalizeNoDocument(n: Node)
    requires NoInnerDocument(n)
    ensures NoInnerDocument(NormalizeNode(n)) && NormalizeNode(n).Document? == n.Document?
    decreases n, 1
  {
    match n
    case Element(_, _, _, _, cs) => NormalizeKidsNoDocument(cs);
    case Document(cs) => NormalizeKidsNoDocument(cs);
    case _ =>
  }

  lemma {:induction false} NormalizeKidsNoDocument(cs: seq<Node>)
    requires KidsNoDocument(cs)
    ensures KidsNoDocument(NormalizeKids(cs))
    decreases cs, 0
  {
    if cs != [] {
      NormalizeNoDocument(cs[0]);
      NormalizeKidsNoDocument(cs[1..]);
      var rest := NormalizeKids(cs[1..]);
      if |rest| > 0 {
        assert rest == [rest[0]] + rest[1..];
        assert KidsNoDocument(rest[1..]);
      }
    }
  }

  /** Replacing a node below the root by a non-document leaves no inner document. */
  lemma {:induction false} SetAtNoDocument(root: Node, p: Pos, n: Node)
    requires NoInnerDocument(root) && ValidPos(root, p) && NoInnerDocument(n)
    requires |p| > 0 ==> !n.Document?
    requires |p| == 0 ==> n.Document? == root.Document?
    ensures NoInnerDocument(SetAt(root, p, n)) && SetAt(root, p, n).Document? == root.Document?
    decreases |p|
  {
    if |p| > 0 {
      var cs := Kids(root);
      var i := p[0];
      KidsNoDocumentAt(cs, i);
      SetAtNoDocument(cs[i], p[1..], n);
      var cs' := cs[i := SetAt(cs[i], p[1..], n)];
      KidsNoDocumentAt(cs', i);
      assert cs'[..i] == cs[..i] && cs'[i + 1..] == cs[i + 1..];
    }
  }
}
