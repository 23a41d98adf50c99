/**
 * `safeWrapSelectionWithTracking`: every text node of the selection has its
 * selected part wrapped in a container cloned from one template, and one
 * record is made per wrapped node. The text nodes are held by reference
 * while earlier ones are split, so the model carries, beside each node's
 * position in the tree before wrapping, its live position in the tree as it
 * is when the node's turn comes.
 */
module Wrap {
  import opened Wrappers
  import opened Strings
  import opened Dom
  import opened Storage
  import opened XPath
  import opened Annotation
  import opened Ranges

  // ---------------------------------------------------------------------------
  // Per-node offsets and records

  /**
   * The part of a text node of length `len` that the selection covers: the
   * start offset when the node is the start container, else 0; the end
   * offset when it is the end container, else its length.
   */
  function SubRange(rng: Range, orig: Pos, len: nat): (nat, nat) {
    (if orig == rng.start.node then rng.start.offset else 0,
     if orig == rng.end.node then rng.end.offset else len)
  }

  /** The id of the record for the node at index `j` of the text-node list. */
  function RecordId(baseId: string, j: nat): string {
    baseId + "_" + NatToString(j)
  }

  /** Ids of records made from different nodes differ, and none is the template's id. */
  lemma {:induction false} RecordIdDistinct(baseId: string, j1: nat, j2: nat)
    ensures RecordId(baseId, j1) == RecordId(baseId, j2) <==> j1 == j2
    ensures RecordId(baseId, j1) != baseId
  {
    var a, b := RecordId(baseId, j1), RecordId(baseId, j2);
    if a == b {
      assert a[|baseId| + 1..] == NatToString(j1);
      assert b[|baseId| + 1..] == NatToString(j2);
      NatToStringInjective(j1, j2);
    }
    assert |a| > |baseId|;
  }

  /** For a node of a valid range, the covered part lies within the node's text, start not after end. */
  lemma {:induction false} SubRangeBounds(root: Node, rng: Range, orig: Pos)
    requires ValidRange(root, rng) && ValidPos(root, orig) && NodeAt(root, orig).Text?
    ensures var (s, e) := SubRange(rng, orig, |NodeAt(root, orig).content|);
      s <= e <= |NodeAt(root, orig).content|
  {
    var n := orig;
    if n == rng.start.node && n == rng.end.node {
      PrefixKeepsOrder(n, [rng.end.offset], [rng.start.offset]);
      assert Key(rng.end) == n + [rng.end.offset] && Key(rng.start) == n + [rng.start.offset];
    }
  }

  /**
   * The records the loop makes, read off the tree before wrapping: one per
   * node from index `k` on whose text and covered part are nonempty, with
   * the node's index in the id, the covered text, its offsets and the style.
   * The path is left empty here: it is taken from the live tree.
   */
  function Records(root: Node, rng: Range, origs: seq<Pos>, k: nat, baseId: string, style: Style): seq<TextAnnotation>
    requires k <= |origs|
    decreases |origs| - k
  {
    if k == |origs| then []
    else
      var rest := Records(root, rng, origs, k + 1, baseId, style);
      if !ValidPos(root, origs[k]) || !NodeAt(root, origs[k]).Text? || NodeAt(root, origs[k]).content == "" then rest
      else
        var n := NodeAt(root, origs[k]);
        var (s, e) := SubRange(rng, origs[k], |n.content|);
        var sel := Substring(n.content, s, e);
        if sel == "" then rest
        else [TextAnnotation(RecordId(baseId, k), sel, s, e, "", style)] + rest
  }

  /**
   * Every record comes from a node at some index `j >= k` of the list, in
   * increasing order of `j`: its id names `j`, its text is the nonempty
   * covered part of that node, and for a valid range `startOffset <
   * endOffset`.
   */
  lemma {:induction false} RecordsShape(root: Node, rng: Range, origs: seq<Pos>, k: nat, baseId: string, style: Style, n: nat)
    returns (j: nat)
    requires k <= |origs|
    requires ValidRange(root, rng)
    requires n < |Records(root, rng, origs, k, baseId, style)|
    ensures k + n <= j < |origs| && ValidPos(root, origs[j]) && NodeAt(root, origs[j]).Text?
    ensures var a := Records(root, rng, origs, k, baseId, style)[n];
      var t := NodeAt(root, origs[j]).content;
      a.id == RecordId(baseId, j) && a.style == style &&
      (a.startOffset, a.endOffset) == SubRange(rng, origs[j], |t|) &&
      a.startOffset < a.endOffset <= |t| && a.text == t[a.startOffset..a.endOffset] && a.text != ""
    decreases |origs| - k
  {
    var rs := Records(root, rng, origs, k, baseId, style);
    var rest := Records(root, rng, origs, k + 1, baseId, style);
    if rs == rest {
      j := RecordsShape(root, rng, origs, k + 1, baseId, style, n);
    } else if n > 0 {
      RecordsHead(root, rng, origs, k, baseId, style);
      assert rs[n] == rest[n - 1];
      j := RecordsShape(root, rng, origs, k + 1, baseId, style, n - 1);
    } else {
      RecordsFirst(root, rng, origs, k, baseId, style);
      j := k;
    }
  }

  /** When node `k` makes a record, the record heads the list and is built from that node's covered part. */
  lemma {:induction false} RecordsFirst(root: Node, rng: Range, origs: seq<Pos>, k: nat, baseId: string, style: Style)
    requires k < |origs| && ValidRange(root, rng)
    requires Records(root, rng, origs, k, baseId, style) != Records(root, rng, origs, k + 1, baseId, style)
    ensures ValidPos(root, origs[k]) && NodeAt(root, origs[k]).Text?
    ensures var a := Records(root, rng, origs, k, baseId, style)[0];
      var t := NodeAt(root, origs[k]).content;
      a.id == RecordId(baseId, k) && a.style == style &&
      (a.startOffset, a.endOffset) == SubRange(rng, origs[k], |t|) &&
      a.startOffset < a.endOffset <= |t| && a.text == t[a.startOffset..a.endOffset] && a.text != ""
  {
    SubRangeBounds(root, rng, origs[k]);
  }

  /** Either node `k` makes no record, or its record heads the list. */
  lemma {:induction false} RecordsHead(root: Node, rng: Range, origs: seq<Pos>, k: nat, baseId: string, style: Style)
    requires k < |origs|
    ensures var rs := Records(root, rng, origs, k, baseId, style);
      var rest := Records(root, rng, origs, k + 1, baseId, style);
      rs == rest || (|rs| == |rest| + 1 && rs[0].id == RecordId(baseId, k) && rs[1..] == rest)
  {
  }

  /** The list index named by a record's id grows along the records. */
  lemma {:induction false} RecordsIndexOrder(root: Node, rng: Range, origs: seq<Pos>, k: nat, baseId: string, style: Style, n1: nat, n2: nat)
    returns (j1: nat, j2: nat)
    requires k <= |origs|
    requires n1 < n2 < |Records(root, rng, origs, k, baseId, style)|
    ensures k <= j1 < j2 < |origs|
    ensures Records(root, rng, origs, k, baseId, style)[n1].id == RecordId(baseId, j1)
    ensures Records(root, rng, origs, k, baseId, style)[n2].id == RecordId(baseId, j2)
    ensures Records(root, rng, origs, k, baseId, style)[n1].id != Records(root, rng, origs, k, baseId, style)[n2].id
    ensures Records(root, rng, origs, k, baseId, style)[n1].id != baseId
    decreases |origs| - k
  {
    var rs := Records(root, rng, origs, k, baseId, style);
    var rest := Records(root, rng, origs, k + 1, baseId, style);
    RecordsHead(root, rng, origs, k, baseId, style);
    if rs == rest {
      j1, j2 := RecordsIndexOrder(root, rng, origs, k + 1, baseId, style, n1, n2);
    } else {
      assert rs[n2] == rest[n2 - 1];
      if n1 > 0 {
        assert rs[n1] == rest[n1 - 1];
        j1, j2 := RecordsIndexOrder(root, rng, origs, k + 1, baseId, style, n1 - 1, n2 - 1);
      } else {
        j1 := k;
        j2 := RecordsIds(root, rng, origs, k + 1, baseId, style, n2 - 1);
      }
    }
    RecordIdDistinct(baseId, j1, j2);
  }

  /** Each record's id names a list index from `k` on. */
  lemma {:induction false} RecordsIds(root: Node, rng: Range, origs: seq<Pos>, k: nat, baseId: string, style: Style, n: nat)
    returns (j: nat)
    requires k <= |origs|
    requires n < |Records(root, rng, origs, k, baseId, style)|
    ensures k <= j < |origs| && Records(root, rng, origs, k, baseId, style)[n].id == RecordId(baseId, j)
    decreases |origs| - k
  {
    var rs := Records(root, rng, origs, k, baseId, style);
    var rest := Records(root, rng, origs, k + 1, baseId, style);
    RecordsHead(root, rng, origs, k, baseId, style);
    if rs == rest {
      j := RecordsIds(root, rng, origs, k + 1, baseId, style, n);
    } else if n > 0 {
      assert rs[n] == rest[n - 1];
      j := RecordsIds(root, rng, origs, k + 1, baseId, style, n - 1);
    } else {
      j := k;
    }
  }

  // ---------------------------------------------------------------------------
  // The loop over the live tree

  /** Every position of `ps` as it is after child `i` of the node at `q` is replaced by `m` nodes. */
  function ShiftAll(ps: seq<Pos>, q: Pos, i: nat, m: nat): (r: seq<Pos>)
    requires m >= 1
    ensures |r| == |ps| && forall j :: 0 <= j < |ps| ==> r[j] == Shifted(ps[j], q, i, m)
  {
    seq(|ps|, j requires 0 <= j < |ps| => Shifted(ps[j], q, i, m))
  }

  datatype WrapResult = WrapResult(doc: Node, records: seq<TextAnnotation>)

  /** The tree, the live positions and the records made, after one node's turn. */
  datatype Turn = Turn(doc: Node, lives: seq<Pos>, made: seq<TextAnnotation>)

  /**
   * The turn of the node at index `k`, over the tree `doc` as it stands,
   * with `lives` the current positions of the listed text nodes and `origs`
   * their positions before wrapping (which the container tests compare
   * against). A node whose text is empty, or without a parent, or whose
   * covered part is empty, is skipped; otherwise the record takes its path
   * from the live tree, the node is replaced by the fragment with a
   * container carrying the template's id `baseId`, and the later positions
   * move past the fragment.
   */
  function Advance(doc: Node, rng: Range, origs: seq<Pos>, lives: seq<Pos>, k: nat, baseId: string, style: Style): (t: Turn)
    requires |origs| == |lives| && k < |lives|
    ensures |t.lives| == |lives|
  {
    if !Wraps(doc, rng, origs, lives, k) then Turn(doc, lives, [])
    else
      var lp := lives[k];
      var rec := StepRecord(doc, rng, origs, lives, k, baseId, style);
      var ann := rec.(id := baseId);
      ParentValid(doc, lp);
      var q, i := Parent(lp), Last(lp);
      var m := |Fragment(ChildAt(doc, q, i).content, ann.startOffset, ann.endOffset, ann.id, ann.style)|;
      Turn(ApplyTextAnnotation(doc, q, i, ann), ShiftAll(lives, q, i, m), [rec])
  }

  /** The loop from index `k` on: each node's turn in list order, the records in the order they are made. */
  function WrapFrom(doc: Node, rng: Range, origs: seq<Pos>, lives: seq<Pos>, k: nat, baseId: string, style: Style): WrapResult
    requires |origs| == |lives| && k <= |lives|
    decreases |lives| - k
  {
    if k == |lives| then WrapResult(doc, [])
    else
      var t := Advance(doc, rng, origs, lives, k, baseId, style);
      var rest := WrapFrom(t.doc, rng, origs, t.lives, k + 1, baseId, style);
      WrapResult(rest.doc, t.made + rest.records)
  }

  /** Whether the node at index `k` gets wrapped: a text node with text and a parent, whose covered part is nonempty. */
  predicate Wraps(doc: Node, rng: Range, origs: seq<Pos>, lives: seq<Pos>, k: nat)
    requires |origs| == |lives| && k < |lives|
  {
    var lp := lives[k];
    ValidPos(doc, lp) && NodeAt(doc, lp).Text? && |lp| > 0 &&
    var text := NodeAt(doc, lp).content;
    var (s, e) := SubRange(rng, origs[k], |text|);
    text != "" && Substring(text, s, e) != ""
  }

  /** The record for the node at index `k`, its path taken from the live tree. */
  function StepRecord(doc: Node, rng: Range, origs: seq<Pos>, lives: seq<Pos>, k: nat, baseId: string, style: Style): TextAnnotation
    requires |origs| == |lives| && k < |lives| && ValidPos(doc, lives[k]) && NodeAt(doc, lives[k]).Text?
  {
    var text := NodeAt(doc, lives[k]).content;
    var (s, e) := SubRange(rng, origs[k], |text|);
    TextAnnotation(RecordId(baseId, k), Substring(text, s, e), s, e, GetXPath(doc, lives[k]), style)
  }

  /** A wrapped node's turn, in terms of its parent `q` and slot `i`. */
  lemma {:induction false} AdvanceStep(doc: Node, rng: Range, origs: seq<Pos>, lives: seq<Pos>, k: nat, baseId: string, style: Style, q: Pos, i: nat)
    requires |origs| == |lives| && k < |lives| && Wraps(doc, rng, origs, lives, k)
    requires lives[k] == q + [i] && ValidSlot(doc, q, i) && ChildAt(doc, q, i).Text?
    ensures var rec := StepRecord(doc, rng, origs, lives, k, baseId, style);
      var ann := rec.(id := baseId);
      var m := |Fragment(ChildAt(doc, q, i).content, ann.startOffset, ann.endOffset, ann.id, ann.style)|;
      m >= 1 &&
      Advance(doc, rng, origs, lives, k, baseId, style) == Turn(ApplyTextAnnotation(doc, q, i, ann), ShiftAll(lives, q, i, m), [rec])
  {
    assert Parent(q + [i]) == q;
  }

  /**
   * What the loop keeps true from index `k` on: each listed node is a text
   * node of the tree before wrapping, its live position holds that same
   * node, it has a parent, and no two live positions coincide.
   */
  ghost predicate LiveOk(root: Node, doc: Node, origs: seq<Pos>, lives: seq<Pos>, k: nat) {
    |origs| == |lives| && k <= |lives| &&
    (forall j :: k <= j < |lives| ==>
      ValidPos(root, origs[j]) && NodeAt(root, origs[j]).Text? &&
      |lives[j]| > 0 && ValidPos(doc, lives[j]) && NodeAt(doc, lives[j]) == NodeAt(root, origs[j])) &&
    (forall j1, j2 :: k <= j1 < j2 < |lives| ==> lives[j1] != lives[j2])
  }

  /** Another text node is neither in the replaced slot nor an ancestor of it. */
  lemma {:induction false} OtherText(doc: Node, q: Pos, i: nat, r: Pos)
    requires ValidSlot(doc, q, i) && ChildAt(doc, q, i).Text?
    requires ValidPos(doc, r) && NodeAt(doc, r).Text? && r != q + [i]
    ensures !InSlot(r, q, i) && !IsPrefix(r, q)
  {
    var lp := q + [i];
    NodeAtChild(doc, q, i);
    if InSlot(r, q, i) {
      assert r == lp + r[|lp|..];
      LeafHasNoBelow(doc, lp, r[|lp|..]);
    }
    if IsPrefix(r, q) {
      assert lp[..|r|] == r;
      AncestorHasKids(doc, lp, |r|);
    }
  }

  /** One wrapping step keeps `LiveOk` for the nodes after the wrapped one. */
  lemma {:induction false} LiveStep(root: Node, doc: Node, origs: seq<Pos>, lives: seq<Pos>, k: nat, q: Pos, i: nat, ann: TextAnnotation)
    requires LiveOk(root, doc, origs, lives, k) && k < |lives|
    requires ValidSlot(doc, q, i) && ChildAt(doc, q, i).Text? && lives[k] == q + [i]
    ensures var m := |Fragment(ChildAt(doc, q, i).content, ann.startOffset, ann.endOffset, ann.id, ann.style)|;
      m >= 1 && LiveOk(root, ApplyTextAnnotation(doc, q, i, ann), origs, ShiftAll(lives, q, i, m), k + 1)
  {
    var t := ChildAt(doc, q, i).content;
    var m := |Fragment(t, ann.startOffset, ann.endOffset, ann.id, ann.style)|;
    FragmentHighlights(t, ann.startOffset, ann.endOffset, ann.id, ann.style);
    var doc' := ApplyTextAnnotation(doc, q, i, ann);
    var lives' := ShiftAll(lives, q, i, m);
    forall j | k + 1 <= j < |lives|
      ensures |lives'[j]| > 0 && ValidPos(doc', lives'[j]) && NodeAt(doc', lives'[j]) == NodeAt(root, origs[j])
    {
      OtherText(doc, q, i, lives[j]);
      ApplyKeepsOthers(doc, q, i, ann, lives[j]);
    }
    forall j1, j2 | k + 1 <= j1 < j2 < |lives| ensures lives'[j1] != lives'[j2] {
      OtherText(doc, q, i, lives[j1]);
      OtherText(doc, q, i, lives[j2]);
      if lives'[j1] == lives'[j2] {
        ShiftedInjective(lives[j1], lives[j2], q, i, m);
      }
    }
  }

  /** Records with the path left out. */
  function Unpathed(rs: seq<TextAnnotation>): seq<TextAnnotation> {
    if rs == [] then [] else [rs[0].(xpath := "")] + Unpathed(rs[1..])
  }

  lemma {:induction false} UnpathedCons(a: TextAnnotation, rs: seq<TextAnnotation>)
    ensures Unpathed([a] + rs) == [a.(xpath := "")] + Unpathed(rs)
  {
    assert ([a] + rs)[1..] == rs;
  }

  lemma {:induction false} UnpathedLength(rs: seq<TextAnnotation>)
    ensures |Unpathed(rs)| == |rs|
    decreases |rs|
  {
    if rs != [] {
      UnpathedLength(rs[1..]);
    }
  }

  /** Splitting a position with a parent into the parent and the slot. */
  lemma {:induction false} ParentSlot(doc: Node, lp: Pos)
    requires ValidPos(doc, lp) && |lp| > 0
    ensures lp == Parent(lp) + [Last(lp)]
    ensures ValidSlot(doc, Parent(lp), Last(lp)) && ChildAt(doc, Parent(lp), Last(lp)) == NodeAt(doc, lp)
  {
    ParentValid(doc, lp);
  }

  lemma {:induction false} UnpathedAppend(a: seq<TextAnnotation>, b: seq<TextAnnotation>)
    requires |a| <= 1
    ensures Unpathed(a + b) == Unpathed(a) + Unpathed(b)
  {
    if a != [] {
      UnpathedCons(a[0], b);
      assert a == [a[0]];
    } else {
      assert a + b == b;
    }
  }

  /** A node's turn makes the record for it exactly when it is wrapped. */
  lemma {:induction false} AdvanceMade(doc: Node, rng: Range, origs: seq<Pos>, lives: seq<Pos>, k: nat, baseId: string, style: Style)
    requires |origs| == |lives| && k < |lives|
    ensures Advance(doc, rng, origs, lives, k, baseId, style).made ==
      if Wraps(doc, rng, origs, lives, k) then [StepRecord(doc, rng, origs, lives, k, baseId, style)] else []
  {
  }

  lemma {:induction false} AdvanceSkipped(doc: Node, rng: Range, origs: seq<Pos>, lives: seq<Pos>, k: nat, baseId: string, style: Style)
    requires |origs| == |lives| && k < |lives| && !Wraps(doc, rng, origs, lives, k)
    ensures Advance(doc, rng, origs, lives, k, baseId, style) == Turn(doc, lives, [])
  {
  }

  /** Read off the tree before wrapping, the record for node `k` is the one its turn makes, without the path. */
  lemma {:induction false} RecordsAt(root: Node, doc: Node, rng: Range, origs: seq<Pos>, lives: seq<Pos>, k: nat, baseId: string, style: Style)
    requires LiveOk(root, doc, origs, lives, k) && k < |lives|
    ensures Records(root, rng, origs, k, baseId, style) ==
      (if Wraps(doc, rng, origs, lives, k) then [StepRecord(doc, rng, origs, lives, k, baseId, style).(xpath := "")] else []) +
      Records(root, rng, origs, k + 1, baseId, style)
  {
    assert NodeAt(doc, lives[k]) == NodeAt(root, origs[k]);
  }

  /** A skipped node's turn changes nothing. */
  lemma {:induction false} AdvanceSkip(root: Node, doc: Node, rng: Range, origs: seq<Pos>, lives: seq<Pos>, k: nat, baseId: string, style: Style)
    requires LiveOk(root, doc, origs, lives, k) && k < |lives| && !Wraps(doc, rng, origs, lives, k)
    ensures var t := Advance(doc, rng, origs, lives, k, baseId, style);
      LiveOk(root, t.doc, origs, t.lives, k + 1) && t.doc == doc
  {
  }

  /** A wrapped node's turn keeps `LiveOk` for the rest, keeps the text and adds one container. */
  lemma {:induction false} AdvanceWrap(root: Node, doc: Node, rng: Range, origs: seq<Pos>, lives: seq<Pos>, k: nat, baseId: string, style: Style)
    requires LiveOk(root, doc, origs, lives, k) && k < |lives| && Wraps(doc, rng, origs, lives, k)
    ensures var t := Advance(doc, rng, origs, lives, k, baseId, style);
      LiveOk(root, t.doc, origs, t.lives, k + 1) &&
      HighlightCount(t.doc) == HighlightCount(doc) + 1 &&
      (ValidRange(root, rng) ==> TextOf(t.doc) == TextOf(doc))
  {
    var lp := lives[k];
    ParentSlot(doc, lp);
    var q, i := Parent(lp), Last(lp);
    AdvanceStep(doc, rng, origs, lives, k, baseId, style, q, i);
    var ann := StepRecord(doc, rng, origs, lives, k, baseId, style).(id := baseId);
    LiveStep(root, doc, origs, lives, k, q, i, ann);
    ApplyAddsHighlight(doc, q, i, ann);
    if ValidRange(root, rng) {
      SubRangeBounds(root, rng, origs[k]);
      ApplyKeepsText(doc, q, i, ann);
    }
  }

  /**
   * One node's turn keeps `LiveOk` for the rest; the records it makes are
   * the ones read off the tree before wrapping, plus their paths; the text
   * is unchanged; there is one more container per record made.
   */
  lemma {:induction false} AdvanceFacts(root: Node, doc: Node, rng: Range, origs: seq<Pos>, lives: seq<Pos>, k: nat, baseId: string, style: Style)
    requires LiveOk(root, doc, origs, lives, k) && k < |lives|
    ensures var t := Advance(doc, rng, origs, lives, k, baseId, style);
      LiveOk(root, t.doc, origs, t.lives, k + 1) && |t.made| <= 1 &&
      Records(root, rng, origs, k, baseId, style) == Unpathed(t.made) + Records(root, rng, origs, k + 1, baseId, style) &&
      HighlightCount(t.doc) == HighlightCount(doc) + |t.made| &&
      (ValidRange(root, rng) ==> TextOf(t.doc) == TextOf(doc))
  {
    if Wraps(doc, rng, origs, lives, k) {
      AdvanceWrapFacts(root, doc, rng, origs, lives, k, baseId, style);
    } else {
      AdvanceSkipFacts(root, doc, rng, origs, lives, k, baseId, style);
    }
  }

  lemma {:induction false} AdvanceWrapFacts(root: Node, doc: Node, rng: Range, origs: seq<Pos>, lives: seq<Pos>, k: nat, baseId: string, style: Style)
    requires LiveOk(root, doc, origs, lives, k) && k < |lives| && Wraps(doc, rng, origs, lives, k)
    ensures var t := Advance(doc, rng, origs, lives, k, baseId, style);
      LiveOk(root, t.doc, origs, t.lives, k + 1) && |t.made| <= 1 &&
      Records(root, rng, origs, k, baseId, style) == Unpathed(t.made) + Records(root, rng, origs, k + 1, baseId, style) &&
      HighlightCount(t.doc) == HighlightCount(doc) + |t.made| &&
      (ValidRange(root, rng) ==> TextOf(t.doc) == TextOf(doc))
  {
    var rec := StepRecord(doc, rng, origs, lives, k, baseId, style);
    AdvanceMade(doc, rng, origs, lives, k, baseId, style);
    UnpathedOne(rec);
    RecordsAt(root, doc, rng, origs, lives, k, baseId, style);
    AdvanceWrap(root, doc, rng, origs, lives, k, baseId, style);
  }

  lemma {:induction false} UnpathedOne(a: TextAnnotation)
    ensures Unpathed([a]) == [a.(xpath := "")]
  {
    assert [a][1..] == [];
  }

  lemma {:induction false} AdvanceSkipFacts(root: Node, doc: Node, rng: Range, origs: seq<Pos>, lives: seq<Pos>, k: nat, baseId: string, style: Style)
    requires LiveOk(root, doc, origs, lives, k) && k < |lives| && !Wraps(doc, rng, origs, lives, k)
    ensures var t := Advance(doc, rng, origs, lives, k, baseId, style);
      LiveOk(root, t.doc, origs, t.lives, k + 1) && |t.made| <= 1 &&
      Records(root, rng, origs, k, baseId, style) == Unpathed(t.made) + Records(root, rng, origs, k + 1, baseId, style) &&
      HighlightCount(t.doc) == HighlightCount(doc) + |t.made| &&
      (ValidRange(root, rng) ==> TextOf(t.doc) == TextOf(doc))
  {
    AdvanceSkipped(doc, rng, origs, lives, k, baseId, style);
    RecordsAt(root, doc, rng, origs, lives, k, baseId, style);
    AdvanceSkip(root, doc, rng, origs, lives, k, baseId, style);
  }

  /**
   * The loop over the live tree makes exactly the records read off the tree
   * before wrapping, except for their paths.
   */
  lemma {:induction false} WrapRecords(root: Node, doc: Node, rng: Range, origs: seq<Pos>, lives: seq<Pos>, k: nat, baseId: string, style: Style)
    requires LiveOk(root, doc, origs, lives, k)
    ensures Unpathed(WrapFrom(doc, rng, origs, lives, k, baseId, style).records) == Records(root, rng, origs, k, baseId, style)
    decreases |lives| - k
  {
    if k < |lives| {
      var t := Advance(doc, rng, origs, lives, k, baseId, style);
      AdvanceFacts(root, doc, rng, origs, lives, k, baseId, style);
      WrapRecords(root, t.doc, rng, origs, t.lives, k + 1, baseId, style);
      UnpathedAppend(t.made, WrapFrom(t.doc, rng, origs, t.lives, k + 1, baseId, style).records);
    }
  }

  /**
   * The loop changes no character of the page's text, and adds one
   * container per record it makes.
   */
  lemma {:induction false} WrapTreeEffect(root: Node, doc: Node, rng: Range, origs: seq<Pos>, lives: seq<Pos>, k: nat, baseId: string, style: Style)
    requires LiveOk(root, doc, origs, lives, k) && ValidRange(root, rng)
    ensures var r := WrapFrom(doc, rng, origs, lives, k, baseId, style);
      TextOf(r.doc) == TextOf(doc) && HighlightCount(r.doc) == HighlightCount(doc) + |r.records|
    decreases |lives| - k
  {
    if k < |lives| {
      var t := Advance(doc, rng, origs, lives, k, baseId, style);
      AdvanceFacts(root, doc, rng, origs, lives, k, baseId, style);
      WrapTreeEffect(root, t.doc, rng, origs, t.lives, k + 1, baseId, style);
    }
  }

  /** At the start, the text nodes of the selection satisfy `LiveOk` with their own positions. */
  lemma {:induction false} LiveStart(root: Node, rng: Range)
    requires ValidRange(root, rng) && !root.Text?
    ensures var ts := TextNodesInRange(root, rng); LiveOk(root, root, ts, ts, 0)
  {
    var ts := TextNodesInRange(root, rng);
    forall j | 0 <= j < |ts| ensures ValidPos(root, ts[j]) && NodeAt(root, ts[j]).Text? && |ts[j]| > 0 {
      TextNodesInRangeExact(root, rng, ts[j]);
    }
    TextNodesInRangeExact(root, rng, []);
    forall j1, j2 | 0 <= j1 < j2 < |ts| ensures ts[j1] != ts[j2] {
      if ts[j1] == ts[j2] {
        LexAsymmetric(ts[j1], ts[j2]);
      }
    }
  }

  /** `safeWrapSelectionWithTracking` on the selection `rng`: the loop over the text nodes `getTextNodesInRange` returns. */
  function SafeWrap(root: Node, rng: Range, baseId: string, style: Style): WrapResult
    requires ValidRange(root, rng)
  {
    var ts := TextNodesInRange(root, rng);
    WrapFrom(root, rng, ts, ts, 0, baseId, style)
  }

  /** There are at most as many records as nodes from index `k` on. */
  lemma {:induction false} RecordsCount(root: Node, rng: Range, origs: seq<Pos>, k: nat, baseId: string, style: Style)
    requires k <= |origs|
    requires ValidRange(root, rng)
    ensures |Records(root, rng, origs, k, baseId, style)| <= |origs| - k
  {
    var rs := Records(root, rng, origs, k, baseId, style);
    if |rs| > 0 {
      var j := RecordsShape(root, rng, origs, k, baseId, style, |rs| - 1);
    }
  }

  /**
   * What wrapping a selection does: its records are those read off the
   * page before wrapping (one per text node of the selection with a
   * nonempty covered part, see `RecordsShape`), at most one per node; the
   * page's text is unchanged; and there is one more container per record.
   */
  lemma {:induction false} SafeWrapEffect(root: Node, rng: Range, baseId: string, style: Style)
    requires ValidRange(root, rng) && !root.Text?
    ensures var ts := TextNodesInRange(root, rng);
      var r := SafeWrap(root, rng, baseId, style);
      Unpathed(r.records) == Records(root, rng, ts, 0, baseId, style) && |r.records| <= |ts| &&
      TextOf(r.doc) == TextOf(root) && HighlightCount(r.doc) == HighlightCount(root) + |r.records|
  {
    var ts := TextNodesInRange(root, rng);
    LiveStart(root, rng);
    WrapRecords(root, root, rng, ts, ts, 0, baseId, style);
    WrapTreeEffect(root, root, rng, ts, ts, 0, baseId, style);
    RecordsCount(root, rng, ts, 0, baseId, style);
    UnpathedLength(SafeWrap(root, rng, baseId, style).records);
  }

  /**
   * What holds at the head of the loop of `safeWrapSelectionWithTracking` at
   * index `k`: the live positions are sound, and the records made so far
   * followed by what the rest of the loop makes are all the loop makes, on
   * the tree the whole loop leaves.
   */
  ghost predicate WrapLoop(root: Node, rng: Range, origs: seq<Pos>, doc: Node, lives: seq<Pos>, k: nat,
                           made: seq<TextAnnotation>, baseId: string, style: Style)
  {
    ValidRange(root, rng) && origs == TextNodesInRange(root, rng) &&
    LiveOk(root, doc, origs, lives, k) &&
    var rest := WrapFrom(doc, rng, origs, lives, k, baseId, style);
    var total := WrapFrom(root, rng, origs, origs, 0, baseId, style);
    made + rest.records == total.records && rest.doc == total.doc
  }

  lemma {:induction false} WrapLoopStart(root: Node, rng: Range, baseId: string, style: Style)
    requires ValidRange(root, rng) && !root.Text?
    ensures var ts := TextNodesInRange(root, rng); WrapLoop(root, rng, ts, root, ts, 0, [], baseId, style)
  {
    LiveStart(root, rng);
  }

  /** At the head of the loop, the node at index `k` is a text node at its live position. */
  lemma {:induction false} WrapLoopLive(root: Node, rng: Range, origs: seq<Pos>, doc: Node, lives: seq<Pos>, k: nat,
                     made: seq<TextAnnotation>, baseId: string, style: Style)
    requires WrapLoop(root, rng, origs, doc, lives, k, made, baseId, style) && k < |lives|
    ensures |origs| == |lives| && ValidPos(doc, lives[k]) && NodeAt(doc, lives[k]).Text?
  {
  }

  /** One turn keeps the loop's invariant. */
  lemma {:induction false} WrapLoopStep(root: Node, rng: Range, origs: seq<Pos>, doc: Node, lives: seq<Pos>, k: nat,
                     made: seq<TextAnnotation>, baseId: string, style: Style)
    requires WrapLoop(root, rng, origs, doc, lives, k, made, baseId, style) && k < |lives|
    ensures var t := Advance(doc, rng, origs, lives, k, baseId, style);
      WrapLoop(root, rng, origs, t.doc, t.lives, k + 1, made + t.made, baseId, style)
  {
    var t := Advance(doc, rng, origs, lives, k, baseId, style);
    WrapFromStep(doc, rng, origs, lives, k, baseId, style);
    AdvanceFacts(root, doc, rng, origs, lives, k, baseId, style);
    var rest := WrapFrom(t.doc, rng, origs, t.lives, k + 1, baseId, style);
    AppendAssoc(made, t.made, rest.records);
  }

  lemma {:induction false} AppendAssoc<T>(a: seq<T>, b: seq<T>, c: seq<T>)
    ensures a + b + c == a + (b + c)
  {
  }

  /** When the loop is done, the tree and the records are those of `SafeWrap`. */
  lemma {:induction false} WrapLoopEnd(root: Node, rng: Range, origs: seq<Pos>, doc: Node, lives: seq<Pos>, k: nat,
                    made: seq<TextAnnotation>, baseId: string, style: Style)
    requires WrapLoop(root, rng, origs, doc, lives, k, made, baseId, style) && k == |lives|
    ensures doc == SafeWrap(root, rng, baseId, style).doc && made == SafeWrap(root, rng, baseId, style).records
  {
    assert made + [] == made;
  }

  /** One turn of the loop, then the rest of it. */
  lemma {:induction false} WrapFromStep(doc: Node, rng: Range, origs: seq<Pos>, lives: seq<Pos>, k: nat, baseId: string, style: Style)
    requires |origs| == |lives| && k < |lives|
    ensures var t := Advance(doc, rng, origs, lives, k, baseId, style);
      var rest := WrapFrom(t.doc, rng, origs, t.lives, k + 1, baseId, style);
      WrapFrom(doc, rng, origs, lives, k, baseId, style) == WrapResult(rest.doc, t.made + rest.records)
  {
  }

  /** A skipped node adds nothing: the loop from `k` is the loop from `k + 1` on the same tree. */
  lemma {:induction false} WrapFromSkip(doc: Node, rng: Range, origs: seq<Pos>, lives: seq<Pos>, k: nat, baseId: string, style: Style)
    requires |origs| == |lives| && k < |lives| && !Wraps(doc, rng, origs, lives, k)
    ensures WrapFrom(doc, rng, origs, lives, k, baseId, style) == WrapFrom(doc, rng, origs, lives, k + 1, baseId, style)
  {
    AdvanceSkipped(doc, rng, origs, lives, k, baseId, style);
  }

  /** A wrapped node's record comes first. */
  lemma {:induction false} WrapFromTake(doc: Node, rng: Range, origs: seq<Pos>, lives: seq<Pos>, k: nat, baseId: string, style: Style)
    requires |origs| == |lives| && k < |lives| && Wraps(doc, rng, origs, lives, k)
    ensures var w := WrapFrom(doc, rng, origs, lives, k, baseId, style);
      |w.records| > 0 && w.records[0] == StepRecord(doc, rng, origs, lives, k, baseId, style)
  {
    var t := Advance(doc, rng, origs, lives, k, baseId, style);
    var rest := WrapFrom(t.doc, rng, origs, t.lives, k + 1, baseId, style);
    AdvanceMade(doc, rng, origs, lives, k, baseId, style);
    assert WrapFrom(doc, rng, origs, lives, k, baseId, style).records == t.made + rest.records;
  }

  /**
   * The first record's path is taken before any node has been split: it is
   * the path, in the page as it was, of the node the record was made from.
   */
  lemma {:induction false} FirstRecordPath(root: Node, rng: Range, origs: seq<Pos>, k: nat, baseId: string, style: Style)
    returns (j: nat)
    requires k <= |origs|
    requires |WrapFrom(root, rng, origs, origs, k, baseId, style).records| > 0
    ensures k <= j < |origs| && ValidPos(root, origs[j]) && NodeAt(root, origs[j]).Text? && |origs[j]| > 0
    ensures var a := WrapFrom(root, rng, origs, origs, k, baseId, style).records[0];
      a.id == RecordId(baseId, j) && a.xpath == GetXPath(root, origs[j])
    decreases |origs| - k
  {
    if k == |origs| {
      assert false;
    } else if !Wraps(root, rng, origs, origs, k) {
      WrapFromSkip(root, rng, origs, origs, k, baseId, style);
      j := FirstRecordPath(root, rng, origs, k + 1, baseId, style);
    } else {
      WrapFromTake(root, rng, origs, origs, k, baseId, style);
      j := k;
    }
  }

  /**
   * On a well-formed page with unique ids, the first record's path resolves,
   * in the page as it was before wrapping, to the node it was made from.
   */
  lemma {:induction false} FirstRecordResolves(root: Node, rng: Range, baseId: string, style: Style)
    requires ValidRange(root, rng) && WellFormed(root) && UniqueIds(root)
    requires |SafeWrap(root, rng, baseId, style).records| > 0
    ensures var ts := TextNodesInRange(root, rng);
      var a := SafeWrap(root, rng, baseId, style).records[0];
      exists j :: 0 <= j < |ts| && a.id == RecordId(baseId, j) && Resolve(root, a.xpath) == Some(ts[j])
  {
    var ts := TextNodesInRange(root, rng);
    var j := FirstRecordPath(root, rng, ts, 0, baseId, style);
    ResolveGetXPath(root, ts[j]);
  }
}
