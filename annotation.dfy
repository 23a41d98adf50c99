/**
 * Text annotations on the node tree: splitting a text node around a styled
 * container (`applyTextAnnotation`), taking a container apart again (the
 * unwrap of `removeAnnotation` and `resetAll`), the style edits of
 * `applyStyle`, the annotation ledger, and the walk up from a selection to
 * the container it starts in (`findExistingHighlight`).
 */
module Annotation {
  import opened Wrappers
  import opened Dom
  import opened Storage

  // ---------------------------------------------------------------------------
  // String.prototype.substring: both bounds are clamped to the string, and
  // swapped when the first is the larger.

  function Clamp(k: nat, n: nat): (r: nat)
    ensures r <= n && (k <= n ==> r == k)
  {
    if k < n then k else n
  }

  function Substring(s: string, a: nat, b: nat): (r: string)
    ensures a <= b <= |s| ==> r == s[a..b]
    ensures |r| <= |s|
  {
    var x := Clamp(a, |s|);
    var y := Clamp(b, |s|);
    if x <= y then s[x..y] else s[y..x]
  }

  /** The bounds are interchangeable. */
  lemma {:induction false} SubstringSwap(s: string, a: nat, b: nat)
    ensures Substring(s, a, b) == Substring(s, b, a)
  {
  }

  /** A bound beyond the end means the end. */
  lemma {:induction false} SubstringClamps(s: string, a: nat, b: nat)
    ensures Substring(s, a, b) == Substring(s, Clamp(a, |s|), Clamp(b, |s|))
  {
  }

  /** Cutting at `a` and then at `b >= a` splits the string into three parts that spell it again. */
  lemma {:induction false} SubstringParts(s: string, a: nat, b: nat)
    requires a <= b
    ensures Substring(s, 0, a) + Substring(s, a, b) + Substring(s, b, |s|) == s
  {
    var x := Clamp(a, |s|);
    var y := Clamp(b, |s|);
    assert s == s[..x] + s[x..y] + s[y..];
  }

  // ---------------------------------------------------------------------------
  // The styled container

  /** Dataset names (camel case) of the container's attributes. */
  const AnnotationIdKey := "annotationId"
  const ColorKey := "color"
  const UnderlineKey := "underline"
  const BoldKey := "bold"
  const StrikethroughKey := "strikethrough"

  /** The tag name `createElement('span')` gives in an HTML document. */
  const SpanTag := "SPAN"

  function SetFlag(d: map<string, string>, key: string, on: bool): map<string, string> {
    if on then d[key := "true"] else d - {key}
  }

  function SetColor(d: map<string, string>, color: string): map<string, string> {
    if color != "" then d[ColorKey := color] else d - {ColorKey}
  }

  /**
   * The dataset of a container for annotation `id` with style `st`: the id,
   * the colour name when there is one, and "true" for each flag that is set.
   */
  function WrapperData(id: string, st: Style): map<string, string> {
    var d0 := map[AnnotationIdKey := id];
    SetFlag(SetFlag(SetFlag(SetColor(d0, st.color), UnderlineKey, st.underline), BoldKey, st.bold), StrikethroughKey, st.strikethrough)
  }

  /** The dataset says exactly what the style says. */
  predicate MirrorsStyle(d: map<string, string>, st: Style) {
    (ColorKey in d <==> st.color != "") && (ColorKey in d ==> d[ColorKey] == st.color) &&
    (UnderlineKey in d <==> st.underline) && (UnderlineKey in d ==> d[UnderlineKey] == "true") &&
    (BoldKey in d <==> st.bold) && (BoldKey in d ==> d[BoldKey] == "true") &&
    (StrikethroughKey in d <==> st.strikethrough) && (StrikethroughKey in d ==> d[StrikethroughKey] == "true")
  }

  predicate IsStyleKey(k: string) {
    k == ColorKey || k == UnderlineKey || k == BoldKey || k == StrikethroughKey
  }

  /** A fresh container carries its id, mirrors its style, and holds no other attribute. */
  lemma {:induction false} WrapperDataMirrorsStyle(id: string, st: Style)
    ensures var d := WrapperData(id, st);
      AnnotationIdKey in d && d[AnnotationIdKey] == id && MirrorsStyle(d, st) &&
      forall k :: k in d ==> k == AnnotationIdKey || IsStyleKey(k)
  {
  }

  function Wrapper(id: string, st: Style, kids: seq<Node>): Node {
    Element(SpanTag, "", {HighlightClass}, WrapperData(id, st), kids)
  }

  /** The nodes setting `textContent` (or appending a text node only when the text is nonempty) produces. */
  function TextChildren(s: string): (r: seq<Node>)
    ensures TextOfSeq(r) == s
  {
    if s == "" then [] else [Text(s)]
  }

  /**
   * What replaces a text node holding `text`: the part before `s` when it is
   * nonempty, the container holding `text[s..e]`, the part after `e` when it
   * is nonempty (all three cut with `substring`).
   */
  function Fragment(text: string, s: nat, e: nat, id: string, st: Style): seq<Node> {
    TextChildren(Substring(text, 0, s)) +
    [Wrapper(id, st, TextChildren(Substring(text, s, e)))] +
    TextChildren(Substring(text, e, |text|))
  }

  /** The fragment's text is the three parts in order, which spell the original text when `s <= e`. */
  lemma {:induction false} FragmentText(text: string, s: nat, e: nat, id: string, st: Style)
    ensures TextOfSeq(Fragment(text, s, e, id, st)) == Substring(text, 0, s) + Substring(text, s, e) + Substring(text, e, |text|)
    ensures s <= e ==> TextOfSeq(Fragment(text, s, e, id, st)) == text
  {
    var a := TextChildren(Substring(text, 0, s));
    var w := Wrapper(id, st, TextChildren(Substring(text, s, e)));
    var c := TextChildren(Substring(text, e, |text|));
    TextOfSeqAppend(a + [w], c);
    TextOfSeqAppend(a, [w]);
    assert TextOfSeq([w]) == TextOf(w) + TextOfSeq([]);
    if s <= e {
      SubstringParts(text, s, e);
    }
  }

  /** The fragment holds one container, and its text nodes are nonempty. */
  lemma {:induction false} FragmentHighlights(text: string, s: nat, e: nat, id: string, st: Style)
    ensures HighlightCountSeq(Fragment(text, s, e, id, st)) == 1
    ensures var f := Fragment(text, s, e, id, st);
      1 <= |f| <= 3 && forall k :: 0 <= k < |f| ==> f[k].Text? ==> f[k].content != ""
  {
    var a := TextChildren(Substring(text, 0, s));
    var w := Wrapper(id, st, TextChildren(Substring(text, s, e)));
    var c := TextChildren(Substring(text, e, |text|));
    HighlightCountSeqAppend(a + [w], c);
    HighlightCountSeqAppend(a, [w]);
    assert HighlightCount(w) == 1 + HighlightCountSeq(TextChildren(Substring(text, s, e)));
    assert HighlightCountSeq([w]) == HighlightCount(w) + HighlightCountSeq([]);
  }

  lemma {:induction false} FragmentWrapperAt(text: string, s: nat, e: nat, id: string, st: Style)
    ensures var k := |TextChildren(Substring(text, 0, s))|;
      k < |Fragment(text, s, e, id, st)| &&
      Fragment(text, s, e, id, st)[k] == Wrapper(id, st, TextChildren(Substring(text, s, e)))
  {
  }

  // ---------------------------------------------------------------------------
  // applyTextAnnotation

  /**
   * `applyTextAnnotation` on child `i` of the node at `q`: a text node is
   * replaced by the fragment for the annotation's offsets, id and style; any
   * other node leaves the tree as it is. (A node without a parent is the
   * root, never a text node of the document.)
   */
  function ApplyTextAnnotation(root: Node, q: Pos, i: nat, ann: TextAnnotation): (r: Node)
    requires ValidSlot(root, q, i)
    ensures !ChildAt(root, q, i).Text? ==> r == root
  {
    var n := ChildAt(root, q, i);
    if !n.Text? then root
    else Splice(root, q, i, Fragment(n.content, ann.startOffset, ann.endOffset, ann.id, ann.style))
  }

  /** The parent's children afterwards: the text node's slot holds the fragment, the other children are untouched. */
  lemma {:induction false} ApplyParent(root: Node, q: Pos, i: nat, ann: TextAnnotation)
    requires ValidSlot(root, q, i) && ChildAt(root, q, i).Text?
    ensures ValidPos(ApplyTextAnnotation(root, q, i, ann), q)
    ensures var cs := Kids(NodeAt(root, q));
      var f := Fragment(ChildAt(root, q, i).content, ann.startOffset, ann.endOffset, ann.id, ann.style);
      NodeAt(ApplyTextAnnotation(root, q, i, ann), q) == WithKids(NodeAt(root, q), cs[..i] + f + cs[i + 1..])
  {
    var f := Fragment(ChildAt(root, q, i).content, ann.startOffset, ann.endOffset, ann.id, ann.style);
    SpliceParent(root, q, i, f);
  }

  /** Every node that is neither the text node nor one of its ancestors is still there, moved past the fragment if it came later. */
  lemma {:induction false} ApplyKeepsOthers(root: Node, q: Pos, i: nat, ann: TextAnnotation, r: Pos)
    requires ValidSlot(root, q, i) && ChildAt(root, q, i).Text?
    requires ValidPos(root, r) && !InSlot(r, q, i) && !IsPrefix(r, q)
    ensures var m := |Fragment(ChildAt(root, q, i).content, ann.startOffset, ann.endOffset, ann.id, ann.style)|;
      1 <= m <= 3 &&
      ValidPos(ApplyTextAnnotation(root, q, i, ann), Shifted(r, q, i, m)) &&
      NodeAt(ApplyTextAnnotation(root, q, i, ann), Shifted(r, q, i, m)) == NodeAt(root, r)
  {
    var t := ChildAt(root, q, i).content;
    var f := Fragment(t, ann.startOffset, ann.endOffset, ann.id, ann.style);
    FragmentHighlights(t, ann.startOffset, ann.endOffset, ann.id, ann.style);
    SpliceKeepsOthers(root, q, i, f, r);
  }

  /** With `startOffset <= endOffset` no character is lost or duplicated. */
  lemma {:induction false} ApplyKeepsText(root: Node, q: Pos, i: nat, ann: TextAnnotation)
    requires ValidSlot(root, q, i) && ann.startOffset <= ann.endOffset
    ensures TextOf(ApplyTextAnnotation(root, q, i, ann)) == TextOf(root)
  {
    var n := ChildAt(root, q, i);
    if n.Text? {
      FragmentText(n.content, ann.startOffset, ann.endOffset, ann.id, ann.style);
      SpliceKeepsText(root, q, i, Fragment(n.content, ann.startOffset, ann.endOffset, ann.id, ann.style));
    }
  }

  /** A text node gains exactly one container. */
  lemma {:induction false} ApplyAddsHighlight(root: Node, q: Pos, i: nat, ann: TextAnnotation)
    requires ValidSlot(root, q, i) && ChildAt(root, q, i).Text?
    ensures HighlightCount(ApplyTextAnnotation(root, q, i, ann)) == HighlightCount(root) + 1
  {
    var n := ChildAt(root, q, i);
    var f := Fragment(n.content, ann.startOffset, ann.endOffset, ann.id, ann.style);
    FragmentHighlights(n.content, ann.startOffset, ann.endOffset, ann.id, ann.style);
    SpliceHighlights(root, q, i, f);
  }

  /** The slot of the container afterwards: after the `before` node when there is one. */
  function WrapperSlot(root: Node, q: Pos, i: nat, ann: TextAnnotation): nat
    requires ValidSlot(root, q, i) && ChildAt(root, q, i).Text?
  {
    i + |TextChildren(Substring(ChildAt(root, q, i).content, 0, ann.startOffset))|
  }

  /** The container sits at its slot, holding the highlighted part of the text. */
  lemma {:induction false} ApplyWrapperAt(root: Node, q: Pos, i: nat, ann: TextAnnotation)
    requires ValidSlot(root, q, i) && ChildAt(root, q, i).Text?
    ensures var t := ChildAt(root, q, i).content;
      var a := ApplyTextAnnotation(root, q, i, ann);
      var w := WrapperSlot(root, q, i, ann);
      ValidSlot(a, q, w) && ChildAt(a, q, w) == Wrapper(ann.id, ann.style, TextChildren(Substring(t, ann.startOffset, ann.endOffset)))
  {
    var t := ChildAt(root, q, i).content;
    var s, e := ann.startOffset, ann.endOffset;
    SpliceChildAt(root, q, i, TextChildren(Substring(t, 0, s)), Wrapper(ann.id, ann.style, TextChildren(Substring(t, s, e))), TextChildren(Substring(t, e, |t|)));
  }


  // ---------------------------------------------------------------------------
  // Unwrapping a container

  /**
   * The unwrap loop of `removeAnnotation` and `resetAll`: while the container
   * has a first child, insert that child before the container; then remove
   * the container. `cs` are the parent's children and `i` the container's slot.
   */
  method HoistChildren(cs: seq<Node>, i: nat) returns (r: seq<Node>)
    requires i < |cs|
    ensures r == SpliceKids(cs, i, Kids(cs[i]))
  {
    ghost var pre, post := cs[..i], cs[i + 1..];
    ghost var moved: seq<Node> := [];
    ghost var cur := cs[i];
    var kids := cs;
    var at := i;
    HoistStart(cs, i);
    while |Kids(kids[at])| > 0
      invariant at == |pre| + |moved| && at < |kids| && kids[at] == cur
      invariant kids == pre + moved + [cur] + post
      invariant moved + Kids(cur) == Kids(cs[i])
      decreases |Kids(cur)|
    {
      var first := Kids(kids[at])[0];
      var rest := WithKids(kids[at], Kids(kids[at])[1..]);
      HoistStep(pre, moved, cur, post);
      kids := kids[..at] + [first, rest] + kids[at + 1..];
      moved := moved + [first];
      cur := rest;
      at := at + 1;
    }
    HoistDone(pre, moved, cur, post);
    r := kids[..at] + kids[at + 1..];
  }

  lemma {:induction false} HoistStart(cs: seq<Node>, i: nat)
    requires i < |cs|
    ensures cs == cs[..i] + [] + [cs[i]] + cs[i + 1..] && [] + Kids(cs[i]) == Kids(cs[i])
  {
  }

  /** One `insertBefore(highlight.firstChild, highlight)`: the container's first child moves in front of it. */
  lemma {:induction false} HoistStep(pre: seq<Node>, moved: seq<Node>, cur: Node, post: seq<Node>)
    requires |Kids(cur)| > 0
    ensures var kids := pre + moved + [cur] + post;
      var at := |pre| + |moved|;
      var rest := WithKids(cur, Kids(cur)[1..]);
      at < |kids| && kids[at] == cur &&
      kids[..at] + [Kids(cur)[0], rest] + kids[at + 1..] == pre + (moved + [Kids(cur)[0]]) + [rest] + post &&
      (moved + [Kids(cur)[0]]) + Kids(rest) == moved + Kids(cur) && |Kids(rest)| < |Kids(cur)|
  {
    var c := Kids(cur);
    Around(pre + moved, cur, post);
    Regroup(pre, moved, c[0], WithKids(cur, c[1..]), post);
    Uncons(moved, c);
  }

  lemma {:induction false} Regroup<T>(pre: seq<T>, moved: seq<T>, f: T, rest: T, post: seq<T>)
    ensures (pre + moved) + [f, rest] + post == pre + (moved + [f]) + [rest] + post
  {
  }

  lemma {:induction false} Uncons<T>(moved: seq<T>, c: seq<T>)
    requires |c| > 0
    ensures (moved + [c[0]]) + c[1..] == moved + c
  {
    assert c == [c[0]] + c[1..];
  }

  /** Once the container is empty, removing it leaves the hoisted children in its slot. */
  lemma {:induction false} HoistDone(pre: seq<Node>, moved: seq<Node>, cur: Node, post: seq<Node>)
    ensures var kids := pre + moved + [cur] + post;
      var at := |pre| + |moved|;
      at < |kids| && kids[at] == cur && kids[..at] + kids[at + 1..] == pre + moved + post
    ensures Kids(cur) == [] ==> moved + Kids(cur) == moved
  {
    Around(pre + moved, cur, post);
  }

  /** Unwrapping an element keeps the text of the tree. */
  lemma {:induction false} UnwrapKeepsText(root: Node, q: Pos, j: nat)
    requires ValidSlot(root, q, j) && ChildAt(root, q, j).Element?
    ensures TextOf(Unwrap(root, q, j)) == TextOf(root)
  {
    var P := NodeAt(root, q);
    var h := ChildAt(root, q, j);
    var ks := SpliceKids(Kids(P), j, Kids(h));
    SpliceKeepsText(root, q, j, Kids(h));
    SpliceParent(root, q, j, Kids(h));
    var s := Splice(root, q, j, Kids(h));
    NormalizeKeepsText(WithKids(P, ks));
    SetAtKeepsText(s, q, NormalizeNode(WithKids(P, ks)));
    SetAtTwice(root, q, WithKids(P, ks), NormalizeNode(WithKids(P, ks)));
  }

  /** Unwrapping a container removes exactly that one container. */
  lemma {:induction false} UnwrapRemovesHighlight(root: Node, q: Pos, j: nat)
    requires ValidSlot(root, q, j) && IsHighlight(ChildAt(root, q, j))
    ensures HighlightCount(Unwrap(root, q, j)) == HighlightCount(root) - 1
  {
    var P := NodeAt(root, q);
    var h := ChildAt(root, q, j);
    var ks := SpliceKids(Kids(P), j, Kids(h));
    SpliceHighlights(root, q, j, Kids(h));
    assert HighlightCount(h) == 1 + HighlightCountSeq(Kids(h));
    SpliceParent(root, q, j, Kids(h));
    var s := Splice(root, q, j, Kids(h));
    NormalizeKeepsHighlights(WithKids(P, ks));
    SetAtHighlights(s, q, NormalizeNode(WithKids(P, ks)));
    SetAtTwice(root, q, WithKids(P, ks), NormalizeNode(WithKids(P, ks)));
  }

  /**
   * Unwrapping the container `applyTextAnnotation` just made gives the
   * original tree back, provided the parent was normalized and the offsets
   * are in order.
   */
  lemma {:induction false} UnwrapUndoesApply(root: Node, q: Pos, i: nat, ann: TextAnnotation)
    requires ValidSlot(root, q, i) && ChildAt(root, q, i).Text?
    requires IsNormalized(NodeAt(root, q))
    requires ann.startOffset <= ann.endOffset
    ensures var a := ApplyTextAnnotation(root, q, i, ann);
      var w := WrapperSlot(root, q, i, ann);
      ValidSlot(a, q, w) && IsHighlight(ChildAt(a, q, w)) && Unwrap(a, q, w) == root
  {
    var t := ChildAt(root, q, i).content;
    var s, e := ann.startOffset, ann.endOffset;
    var inner := TextChildren(Substring(t, s, e));
    WrapperFacts(ann.id, ann.style, inner);
    ApplyIsSplice(root, q, i, ann);
    ApplyWrapperAt(root, q, i, ann);
    RunText(t, s, e);
    UnwrapUndoesSpliceAt(root, q, i, TextChildren(Substring(t, 0, s)), Wrapper(ann.id, ann.style, inner), TextChildren(Substring(t, e, |t|)),
      ApplyTextAnnotation(root, q, i, ann), WrapperSlot(root, q, i, ann));
  }

  lemma {:induction false} WrapperFacts(id: string, st: Style, kids: seq<Node>)
    ensures IsHighlight(Wrapper(id, st, kids)) && Kids(Wrapper(id, st, kids)) == kids
  {
  }

  /** Applying to a text node splices its three parts, the middle one in a container, into its slot. */
  lemma {:induction false} ApplyIsSplice(root: Node, q: Pos, i: nat, ann: TextAnnotation)
    requires ValidSlot(root, q, i) && ChildAt(root, q, i).Text?
    ensures var t := ChildAt(root, q, i).content;
      var before := TextChildren(Substring(t, 0, ann.startOffset));
      WrapperSlot(root, q, i, ann) == i + |before| &&
      ApplyTextAnnotation(root, q, i, ann) ==
      Splice(root, q, i, before + [Wrapper(ann.id, ann.style, TextChildren(Substring(t, ann.startOffset, ann.endOffset)))] +
                         TextChildren(Substring(t, ann.endOffset, |t|)))
  {
  }

  /** The three text parts are text nodes spelling the original text. */
  lemma {:induction false} RunText(t: string, s: nat, e: nat)
    requires s <= e
    ensures var run := TextChildren(Substring(t, 0, s)) + TextChildren(Substring(t, s, e)) + TextChildren(Substring(t, e, |t|));
      TextOfSeq(run) == t && forall k :: 0 <= k < |run| ==> run[k].Text?
  {
    var a := TextChildren(Substring(t, 0, s));
    var b := TextChildren(Substring(t, s, e));
    var c := TextChildren(Substring(t, e, |t|));
    TextOfSeqAppend(a + b, c);
    TextOfSeqAppend(a, b);
    SubstringParts(t, s, e);
  }

  // ---------------------------------------------------------------------------
  // Styles and their edits

  /** The buttons of the text toolbar. */
  datatype Action = Color(name: string) | Underline | Bold | Strikethrough | Remove

  predicate IsEmptyStyle(st: Style) {
    st.color == "" && !st.underline && !st.bold && !st.strikethrough
  }

  /** The style of a new annotation: only the field of the pressed button is set. */
  function NewStyle(a: Action): (st: Style)
    ensures st.color == (if a.Color? then a.name else "")
    ensures st.underline <==> a.Underline?
    ensures st.bold <==> a.Bold?
    ensures st.strikethrough <==> a.Strikethrough?
    ensures IsEmptyStyle(st) <==> a.Remove? || a == Color("")
  {
    Style(if a.Color? then a.name else "", a.Underline?, a.Bold?, a.Strikethrough?)
  }

  /** The edit of an existing annotation's style; `Remove` is not one of the cases and changes nothing. */
  function UpdateStyle(st: Style, a: Action): Style {
    match a
    case Color(name) => st.(color := name)
    case Underline => st.(underline := !st.underline)
    case Bold => st.(bold := !st.bold)
    case Strikethrough => st.(strikethrough := !st.strikethrough)
    case Remove => st
  }

  /** The matching dataset edit on the container, made after the style edit. */
  function UpdateData(d: map<string, string>, a: Action, st: Style): map<string, string> {
    match a
    case Color(name) => SetColor(d, name)
    case Underline => SetFlag(d, UnderlineKey, st.underline)
    case Bold => SetFlag(d, BoldKey, st.bold)
    case Strikethrough => SetFlag(d, StrikethroughKey, st.strikethrough)
    case Remove => d
  }

  /** An edit changes only the field its button names. */
  lemma {:induction false} UpdateStyleFrame(st: Style, a: Action)
    ensures var st' := UpdateStyle(st, a);
      (st'.color != st.color ==> a.Color?) && (a.Color? ==> st'.color == a.name) &&
      (st'.underline != st.underline <==> a.Underline?) &&
      (st'.bold != st.bold <==> a.Bold?) &&
      (st'.strikethrough != st.strikethrough <==> a.Strikethrough?)
  {
  }

  /** Pressing a flag button twice restores the style; choosing a colour twice is choosing it once. */
  lemma {:induction false} UpdateStyleTwice(st: Style, a: Action)
    ensures !a.Color? ==> UpdateStyle(UpdateStyle(st, a), a) == st
    ensures a.Color? ==> UpdateStyle(UpdateStyle(st, a), a) == UpdateStyle(st, a)
  {
  }

  /** The dataset keeps mirroring the style through an edit, and keeps the annotation id. */
  lemma {:induction false} UpdateKeepsMirror(d: map<string, string>, st: Style, a: Action)
    requires MirrorsStyle(d, st)
    ensures MirrorsStyle(UpdateData(d, a, UpdateStyle(st, a)), UpdateStyle(st, a))
    ensures AnnotationIdKey in d ==> var d' := UpdateData(d, a, UpdateStyle(st, a));
      AnnotationIdKey in d' && d'[AnnotationIdKey] == d[AnnotationIdKey]
  {
  }

  // ---------------------------------------------------------------------------
  // The ledger

  /** `find`: the first annotation with the given id; an absent id (`undefined`) matches none. */
  function FindById(ledger: seq<TextAnnotation>, id: Option<string>): (r: Option<nat>)
    ensures r.Some? ==> r.value < |ledger| && id.Some? && ledger[r.value].id == id.value
    ensures r.Some? ==> forall j :: 0 <= j < r.value ==> ledger[j].id != id.value
    ensures r.None? ==> id.None? || forall j :: 0 <= j < |ledger| ==> ledger[j].id != id.value
  {
    if id.None? || ledger == [] then None
    else if ledger[0].id == id.value then Some(0)
    else match FindById(ledger[1..], id)
      case Some(k) => Some(k + 1)
      case None => None
  }

  /** `filter(a => a.id !== annotationId)`: an absent id keeps everything. */
  function WithoutId(ledger: seq<TextAnnotation>, id: Option<string>): (r: seq<TextAnnotation>)
    ensures |r| <= |ledger|
  {
    if ledger == [] then []
    else (if id.Some? && ledger[0].id == id.value then [] else [ledger[0]]) + WithoutId(ledger[1..], id)
  }

  /** An entry stays exactly when it was there and carries another id. */
  lemma {:induction false} WithoutIdMembers(ledger: seq<TextAnnotation>, id: Option<string>, a: TextAnnotation)
    ensures a in WithoutId(ledger, id) <==> a in ledger && (id.None? || a.id != id.value)
    decreases |ledger|
  {
    if ledger != [] {
      WithoutIdMembers(ledger[1..], id, a);
      assert ledger == [ledger[0]] + ledger[1..];
    }
  }

  /** The remaining entries keep their order. */
  lemma {:induction false} WithoutIdAppend(a: seq<TextAnnotation>, b: seq<TextAnnotation>, id: Option<string>)
    ensures WithoutId(a + b, id) == WithoutId(a, id) + WithoutId(b, id)
    decreases |a|
  {
    if a == [] {
      assert a + b == b;
    } else {
      assert (a + b)[0] == a[0] && (a + b)[1..] == a[1..] + b;
      WithoutIdAppend(a[1..], b, id);
    }
  }

  /** Nothing is removed when no entry carries the id. */
  lemma {:induction false} WithoutAbsentId(ledger: seq<TextAnnotation>, id: Option<string>)
    requires id.None? || forall j :: 0 <= j < |ledger| ==> ledger[j].id != id.value
    ensures WithoutId(ledger, id) == ledger
    decreases |ledger|
  {
    if ledger != [] {
      assert forall j :: 0 <= j < |ledger[1..]| ==> ledger[1..][j] == ledger[j + 1];
      WithoutAbsentId(ledger[1..], id);
      assert ledger == [ledger[0]] + ledger[1..];
    }
  }

  // ---------------------------------------------------------------------------
  // findExistingHighlight

  predicate HighlightAt(root: Node, a: Pos) {
    ValidPos(root, a) && IsHighlight(NodeAt(root, a))
  }

  /** The nearest container among the prefixes of `p` of length `k` or less, the longest first. */
  function NearestHighlight(root: Node, p: Pos, k: nat): Option<Pos>
    requires k <= |p|
  {
    if HighlightAt(root, p[..k]) then Some(p[..k])
    else if k == 0 then None
    else NearestHighlight(root, p, k - 1)
  }

  /** It is the deepest container on the path from the root down to length `k`, or none when there is none. */
  lemma {:induction false} NearestHighlightSpec(root: Node, p: Pos, k: nat)
    requires k <= |p|
    ensures var h := NearestHighlight(root, p, k);
      (h.Some? ==> |h.value| <= k && h.value == p[..|h.value|] && HighlightAt(root, h.value) &&
                   forall j :: |h.value| < j <= k ==> !HighlightAt(root, p[..j])) &&
      (h.None? ==> forall j :: 0 <= j <= k ==> !HighlightAt(root, p[..j]))
  {
    if !HighlightAt(root, p[..k]) && k > 0 {
      NearestHighlightSpec(root, p, k - 1);
    }
  }

  /**
   * The walk from the node at `p` up its ancestor chain: the nearest
   * container at or above `p`, or none.
   */
  method FindExistingHighlight(root: Node, p: Pos) returns (h: Option<Pos>)
    requires ValidPos(root, p)
    ensures h == NearestHighlight(root, p, |p|)
  {
    var k := |p|;
    while true
      invariant 0 <= k <= |p|
      invariant NearestHighlight(root, p, k) == NearestHighlight(root, p, |p|)
      decreases k
    {
      PrefixValid(root, p, k);
      if IsHighlight(NodeAt(root, p[..k])) {
        return Some(p[..k]);
      }
      if k == 0 {
        return None;
      }
      k := k - 1;
    }
  }
}
