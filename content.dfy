/**
 * The content script's controller, `AnnotateSaver`: the page, the ledger of
 * text annotations, the committed strokes and the drawing state, and the
 * handlers that change them; plus the pure rules it follows when it restores
 * saved annotations and when it clears every container from the page.
 */
module Content {
  import opened Wrappers
  import opened Strings
  import opened Dom
  import opened Storage
  import opened XPath
  import opened Annotation
  import opened Ranges
  import opened Wrap
  import opened Draw

  // ---------------------------------------------------------------------------
  // Restoring saved annotations

  /** Whether the saved path of `ann` leads to a text node with a parent, which is what `applyTextAnnotation` splits. */
  predicate Restores(doc: Node, ann: TextAnnotation) {
    var r := Resolve(doc, ann.xpath);
    r.Some? && |r.value| > 0 && ValidPos(doc, r.value) && NodeAt(doc, r.value).Text?
  }

  /** `applyTextAnnotation` on the node at `p`, which has a parent, named by its parent's position and its index there. */
  function SplitAt(doc: Node, p: Pos, ann: TextAnnotation): Node
    requires ValidPos(doc, p) && |p| > 0
  {
    ParentValid(doc, p);
    ApplyTextAnnotation(doc, Parent(p), Last(p), ann)
  }

  /** One entry's turn of `restoreTextAnnotations`: resolve its path and split the node found, if any. */
  function RestoreOne(doc: Node, ann: TextAnnotation): Node {
    if Restores(doc, ann) then SplitAt(doc, Resolve(doc, ann.xpath).value, ann) else doc
  }

  /** `restoreTextAnnotations`: every ledger entry in order, each on the page as the earlier ones left it. */
  function RestoreAll(doc: Node, anns: seq<TextAnnotation>): Node
    decreases |anns|
  {
    if anns == [] then doc else RestoreAll(RestoreOne(doc, anns[0]), anns[1..])
  }

  /**
   * An entry whose path resolves to a text node gets a container of its own,
   * carrying the entry's id and mirroring its style, whatever containers the
   * page already has: nothing checks that the entry was restored before.
   * Another entry leaves the page as it is.
   */
  lemma {:induction false} RestoreOneEffect(doc: Node, ann: TextAnnotation) returns (q: Pos, w: nat)
    ensures Restores(doc, ann) ==> HighlightCount(RestoreOne(doc, ann)) == HighlightCount(doc) + 1
    ensures Restores(doc, ann) ==> var d := RestoreOne(doc, ann);
      ValidSlot(d, q, w) && IsHighlight(ChildAt(d, q, w)) &&
      AnnotationIdKey in ChildAt(d, q, w).data && ChildAt(d, q, w).data[AnnotationIdKey] == ann.id &&
      MirrorsStyle(ChildAt(d, q, w).data, ann.style)
    ensures !Restores(doc, ann) ==> RestoreOne(doc, ann) == doc
    ensures ann.startOffset <= ann.endOffset ==> TextOf(RestoreOne(doc, ann)) == TextOf(doc)
  {
    q, w := [], 0;
    if Restores(doc, ann) {
      var p := Resolve(doc, ann.xpath).value;
      ParentSlot(doc, p);
      q := Parent(p);
      var i := Last(p);
      ApplyAddsHighlight(doc, q, i, ann);
      ApplyWrapperAt(doc, q, i, ann);
      w := WrapperSlot(doc, q, i, ann);
      WrapperDataMirrorsStyle(ann.id, ann.style);
      if ann.startOffset <= ann.endOffset {
        ApplyKeepsText(doc, q, i, ann);
      }
    }
  }

  /**
   * Restoring a ledger adds at most one container per entry and never
   * removes one; when every entry's offsets are in order, the page's text
   * is unchanged.
   */
  lemma {:induction false} RestoreAllEffect(doc: Node, anns: seq<TextAnnotation>)
    ensures HighlightCount(doc) <= HighlightCount(RestoreAll(doc, anns)) <= HighlightCount(doc) + |anns|
    ensures (forall i :: 0 <= i < |anns| ==> anns[i].startOffset <= anns[i].endOffset) ==>
      TextOf(RestoreAll(doc, anns)) == TextOf(doc)
    decreases |anns|
  {
    if anns != [] {
      var q, w := RestoreOneEffect(doc, anns[0]);
      RestoreAllEffect(RestoreOne(doc, anns[0]), anns[1..]);
      if forall i :: 0 <= i < |anns| ==> anns[i].startOffset <= anns[i].endOffset {
        assert anns[0].startOffset <= anns[0].endOffset;
        assert forall i :: 0 <= i < |anns[1..]| ==> anns[1..][i] == anns[i + 1];
      }
    }
  }

  // ---------------------------------------------------------------------------
  // Fresh containers and the ledger

  lemma {:induction false} UnpathedAt(rs: seq<TextAnnotation>, n: nat)
    requires n < |rs|
    ensures |Unpathed(rs)| == |rs| && Unpathed(rs)[n] == rs[n].(xpath := "")
  {
    UnpathedLength(rs);
    if n > 0 {
      UnpathedAt(rs[1..], n - 1);
    }
  }

  /**
   * A freshly wrapped container carries the template's id `baseId`, while
   * the records pushed onto the ledger carry `baseId_i`: when no earlier
   * entry had the id `baseId`, looking the new container's id up in the
   * ledger finds nothing, so a style button pressed on it changes no entry.
   */
  lemma {:induction false} FreshContainerUnmatched(root: Node, rng: Range, baseId: string, style: Style, ledger: seq<TextAnnotation>)
    requires ValidRange(root, rng) && !root.Text?
    requires forall i :: 0 <= i < |ledger| ==> ledger[i].id != baseId
    ensures FindById(ledger + SafeWrap(root, rng, baseId, style).records, Some(baseId)) == None
  {
    var rs := SafeWrap(root, rng, baseId, style).records;
    forall n | 0 <= n < |rs|
      ensures rs[n].id != baseId
    {
      RecordNotBase(root, rng, baseId, style, n);
    }
    IdsMiss(ledger, rs, baseId);
  }

  /** Record `n` of a fresh wrap names its node's index, so it is not the template's id. */
  lemma {:induction false} RecordNotBase(root: Node, rng: Range, baseId: string, style: Style, n: nat)
    requires ValidRange(root, rng) && !root.Text?
    requires n < |SafeWrap(root, rng, baseId, style).records|
    ensures SafeWrap(root, rng, baseId, style).records[n].id != baseId
  {
    var ts := TextNodesInRange(root, rng);
    var rs := SafeWrap(root, rng, baseId, style).records;
    SafeWrapEffect(root, rng, baseId, style);
    UnpathedAt(rs, n);
    var j := RecordsIds(root, rng, ts, 0, baseId, style, n);
    RecordIdDistinct(baseId, j, j);
  }

  lemma {:induction false} IdsMiss(a: seq<TextAnnotation>, b: seq<TextAnnotation>, id: string)
    requires forall i :: 0 <= i < |a| ==> a[i].id != id
    requires forall i :: 0 <= i < |b| ==> b[i].id != id
    ensures FindById(a + b, Some(id)) == None
  {
    var all := a + b;
    forall i | 0 <= i < |all|
      ensures all[i].id != id
    {
      if i >= |a| {
        assert all[i] == b[i - |a|];
      }
    }
  }

  // ---------------------------------------------------------------------------
  // The containers of the page, in document order

  /** The first container strictly below `n` in document order, relative to `n`. */
  function FirstHighlight(n: Node): Option<Pos>
    decreases n, 1
  {
    match n
    case Element(_, _, _, _, cs) => FirstHighlightKids(cs, 0)
    case Document(cs) => FirstHighlightKids(cs, 0)
    case _ => None
  }

  /** The first container at or below one of the children `cs[i..]`, relative to their parent. */
  function FirstHighlightKids(cs: seq<Node>, i: nat): Option<Pos>
    requires i <= |cs|
    decreases cs, 0, |cs| - i
  {
    if i == |cs| then None
    else if IsHighlight(cs[i]) then Some([i])
    else match FirstHighlight(cs[i])
      case Some(p) => Some([i] + p)
      case None => FirstHighlightKids(cs, i + 1)
  }

  /** What is found is a container strictly below `n`. */
  lemma {:induction false} FirstHighlightFound(n: Node)
    ensures FirstHighlight(n).Some? ==> var p := FirstHighlight(n).value;
      |p| > 0 && ValidPos(n, p) && IsHighlight(NodeAt(n, p))
    decreases n, 1
  {
    if HasKids(n) {
      FirstHighlightKidsFound(n, Kids(n), 0);
    }
  }

  lemma {:induction false} FirstHighlightKidsFound(n: Node, cs: seq<Node>, i: nat)
    requires Kids(n) == cs && i <= |cs|
    ensures FirstHighlightKids(cs, i).Some? ==> var p := FirstHighlightKids(cs, i).value;
      |p| > 0 && ValidPos(n, p) && IsHighlight(NodeAt(n, p))
    decreases cs, 0, |cs| - i
  {
    if i < |cs| {
      if IsHighlight(cs[i]) {
        ChildPath(n, [i]);
      } else {
        FirstHighlightFound(cs[i]);
        match FirstHighlight(cs[i])
        case Some(p) =>
          ChildPath(n, [i] + p);
          assert ([i] + p)[1..] == p;
        case None =>
          FirstHighlightKidsFound(n, cs, i + 1);
      }
    }
  }

  /** Nothing is found exactly when there is no container below `n`. */
  lemma {:induction false} FirstHighlightNone(n: Node)
    ensures FirstHighlight(n).None? <==> HighlightCountSeq(Kids(n)) == 0
    decreases n, 1
  {
    if HasKids(n) {
      FirstHighlightKidsNone(Kids(n), 0);
      assert Kids(n)[0..] == Kids(n);
    }
  }

  lemma {:induction false} FirstHighlightKidsNone(cs: seq<Node>, i: nat)
    requires i <= |cs|
    ensures FirstHighlightKids(cs, i).None? <==> HighlightCountSeq(cs[i..]) == 0
    decreases cs, 0, |cs| - i
  {
    if i < |cs| {
      var c := cs[i];
      assert cs[i..][0] == c && cs[i..][1..] == cs[i + 1..];
      FirstHighlightNone(c);
      FirstHighlightKidsNone(cs, i + 1);
      assert HighlightCount(c) == (if IsHighlight(c) then 1 else 0) + HighlightCountSeq(Kids(c));
    }
  }

  // ---------------------------------------------------------------------------
  // Editing an existing container

  /** `existingHighlight.dataset.annotationId`: absent (`undefined`) when the container has none. */
  function IdOf(n: Node): Option<string> {
    if n.Element? && AnnotationIdKey in n.data then Some(n.data[AnnotationIdKey]) else None
  }

  /**
   * Editing the dataset of the container found from the selection's start
   * leaves every node on the way down to the start where it was, and the
   * container still the nearest one: the second search of
   * `removeAnnotation` finds it again.
   */
  lemma {:induction false} NearestAfterEdit(d: Node, p: Pos, hp: Pos, n: Node, k: nat)
    requires ValidPos(d, p) && |hp| <= k <= |p| && hp == p[..|hp|]
    requires HighlightAt(d, hp) && IsHighlight(n) && Kids(n) == Kids(NodeAt(d, hp))
    requires forall j :: |hp| < j <= |p| ==> !HighlightAt(d, p[..j])
    ensures ValidPos(SetAt(d, hp, n), p[..k]) && NearestHighlight(SetAt(d, hp, n), p, k) == Some(hp)
    decreases k
  {
    SetAtSelf(d, hp, n);
    if k > |hp| {
      var r := p[|hp|..k];
      assert p[..k] == hp + r;
      SetAtBelow(d, hp, n, r);
      NodeAtAppend(d, hp, r);
      PrefixValid(d, p, k);
      ChildPath(n, r);
      ChildPath(NodeAt(d, hp), r);
      assert !HighlightAt(d, p[..k]);
      NearestAfterEdit(d, p, hp, n, k - 1);
    }
  }

  /** Changing an entry that carries the removed id does not change what the removal keeps. */
  lemma {:induction false} WithoutIdUpdate(ledger: seq<TextAnnotation>, id: Option<string>, k: nat, a: TextAnnotation)
    requires k < |ledger| && id.Some? && ledger[k].id == id.value && a.id == id.value
    ensures WithoutId(ledger[k := a], id) == WithoutId(ledger, id)
    decreases |ledger|
  {
    if k == 0 {
      assert ledger[k := a][1..] == ledger[1..];
    } else {
      assert ledger[k := a][1..] == ledger[1..][k - 1 := a];
      WithoutIdUpdate(ledger[1..], id, k - 1, a);
    }
  }

  /** Unwrapping the container at `hp`: its children take its slot in its parent, and the parent is normalised. */
  function UnwrapAt(doc: Node, hp: Pos): Node
    requires HighlightAt(doc, hp) && |hp| > 0
  {
    ParentValid(doc, hp);
    Unwrap(doc, Parent(hp), Last(hp))
  }

  /** Unwrapping a container keeps the page's text and removes exactly that one container. */
  lemma {:induction false} UnwrapAtEffect(doc: Node, hp: Pos)
    requires HighlightAt(doc, hp) && |hp| > 0
    ensures TextOf(UnwrapAt(doc, hp)) == TextOf(doc) && HighlightCount(UnwrapAt(doc, hp)) + 1 == HighlightCount(doc)
  {
    ParentValid(doc, hp);
    UnwrapKeepsText(doc, Parent(hp), Last(hp));
    UnwrapRemovesHighlight(doc, Parent(hp), Last(hp));
  }

  /**
   * `findExistingHighlight(this.selectedRange)`: the nearest container at or
   * above the selection's start, when there is a selection whose start lies
   * in the page.
   */
  function FoundHighlight(doc: Node, sel: Option<Range>): (h: Option<Pos>)
    ensures h.Some? ==>
      sel.Some? && |h.value| <= |sel.value.start.node| &&
      HighlightAt(doc, h.value) && h.value == sel.value.start.node[..|h.value|]
  {
    if sel.None? || !ValidPos(doc, sel.value.start.node) then None
    else
      var p := sel.value.start.node;
      NearestHighlightSpec(doc, p, |p|);
      NearestHighlight(doc, p, |p|)
  }

  /** The page after the update branch of `applyStyle` rewrites the dataset of the container at `hp` for the new style `st`. */
  function Restyle(doc: Node, hp: Pos, a: Action, st: Style): (r: Node)
    requires HighlightAt(doc, hp)
    ensures HighlightAt(r, hp) && Kids(NodeAt(r, hp)) == Kids(NodeAt(doc, hp))
    ensures NodeAt(r, hp).data == UpdateData(NodeAt(doc, hp).data, a, st)
  {
    var c := NodeAt(doc, hp);
    var c' := c.(data := UpdateData(c.data, a, st));
    SetAtSelf(doc, hp, c');
    SetAt(doc, hp, c')
  }

  /** After the update branch rewrites the found container's dataset, the search from the selection finds it again. */
  lemma {:induction false} RestyleKeepsFound(doc: Node, sel: Option<Range>, hp: Pos, a: Action, st: Style)
    requires FoundHighlight(doc, sel) == Some(hp)
    ensures FoundHighlight(Restyle(doc, hp, a, st), sel) == Some(hp)
    ensures IdOf(NodeAt(Restyle(doc, hp, a, st), hp)) == IdOf(NodeAt(doc, hp))
  {
    var p := sel.value.start.node;
    var c := NodeAt(doc, hp);
    NearestHighlightSpec(doc, p, |p|);
    NearestAfterEdit(doc, p, hp, c.(data := UpdateData(c.data, a, st)), |p|);
    assert p[..|p|] == p;
    UpdateDataKeepsId(c.data, a, st);
  }

  /** Rewriting the style keys of a dataset leaves its annotation id alone. */
  lemma {:induction false} UpdateDataKeepsId(d: map<string, string>, a: Action, st: Style)
    ensures AnnotationIdKey in UpdateData(d, a, st) <==> AnnotationIdKey in d
    ensures AnnotationIdKey in d ==> UpdateData(d, a, st)[AnnotationIdKey] == d[AnnotationIdKey]
  {
  }

  // ---------------------------------------------------------------------------
  // The controller

  datatype Mode = SelectMode | DrawMode

  /** A selection the handlers can act on: its boundary points lie in the page, and the page is not a lone text node. */
  predicate Usable(doc: Node, rng: Range) {
    ValidRange(doc, rng) && !doc.Text?
  }

  class AnnotateSaver {
    /** The page, `document`. */
    var doc: Node
    /** `window.location.href`, and the annotation database. */
    const href: string
    const store: AnnotationStore

    var mode: Mode
    var isActive: bool
    /** Whether the drawing canvas (with its 2D context) exists, and whether it carries the `active` class. */
    var hasCanvas: bool
    var canvasActive: bool
    /** What the canvas shows: the commands issued since it was last cleared. */
    var canvas: seq<Cmd>

    var isDrawing: bool
    var isErasing: bool
    var currentPath: Option<DrawPath>
    var drawPaths: seq<DrawPath>
    var drawColor: string
    var drawWidth: int

    var textAnnotations: seq<TextAnnotation>
    var selectedRange: Option<Range>

    ghost predicate Valid()
      reads this, store
    {
      store.Valid() && (canvasActive ==> hasCanvas) && (!hasCanvas ==> canvas == [])
    }

    /** The field initialisers; `init` then loads the saved annotations (`LoadSavedAnnotations`). */
    constructor (page: Node, url: string, db: AnnotationStore)
      requires db.Valid()
      ensures Valid() && doc == page && href == url && store == db
      ensures mode == SelectMode && !isActive && !hasCanvas && !canvasActive && canvas == []
      ensures !isDrawing && !isErasing && currentPath == None && drawPaths == []
      ensures drawColor == "#5046e5" && drawWidth == 3
      ensures textAnnotations == [] && selectedRange == None
    {
      doc := page;
      href := url;
      store := db;
      mode := SelectMode;
      isActive := false;
      hasCanvas := false;
      canvasActive := false;
      canvas := [];
      isDrawing := false;
      isErasing := false;
      currentPath := None;
      drawPaths := [];
      drawColor := "#5046e5";
      drawWidth := 3;
      textAnnotations := [];
      selectedRange := None;
    }

    // -------------------------------------------------------------------------
    // Saving and loading

    /** `saveState`: the ledger and the strokes, wrapped in one `draw_main` record when there are any, put under the page's key. */
    method SaveState(now: int)
      requires Valid()
      modifies store
      ensures Valid()
      ensures store.records == old(store.records)[GetPageKey(href) :=
        PageAnnotations(GetPageKey(href), textAnnotations, SavedDrawAnnotations(drawPaths), now)]
    {
      var drawAnnotation := DrawAnnotation(DrawRecordId, drawPaths);
      store.SaveAnnotations(href, textAnnotations, if |drawPaths| > 0 then [drawAnnotation] else [], now);
    }

    /**
     * `loadSavedAnnotations`: when the page has a record, take its ledger and
     * the strokes of its first draw record, split the page for every entry
     * whose path resolves, and show the strokes.
     */
    method LoadSavedAnnotations()
      requires Valid()
      modifies this`doc, this`textAnnotations, this`drawPaths, this`hasCanvas, this`canvas
      ensures Valid()
      ensures GetPageKey(href) !in store.records ==>
        doc == old(doc) && textAnnotations == old(textAnnotations) && drawPaths == old(drawPaths) &&
        hasCanvas == old(hasCanvas) && canvas == old(canvas)
      ensures GetPageKey(href) in store.records ==> var data := store.records[GetPageKey(href)];
        textAnnotations == data.textAnnotations && drawPaths == LoadedPaths(data.drawAnnotations) &&
        doc == RestoreAll(old(doc), data.textAnnotations) &&
        (drawPaths != [] ==> hasCanvas && canvas == Replay(drawPaths)) &&
        (drawPaths == [] ==> hasCanvas == old(hasCanvas) && canvas == old(canvas))
    {
      var data := store.LoadAnnotations(href);
      if data.Some? {
        TakeLoaded(data.value);
      }
    }

    /** The body of `loadSavedAnnotations` once a record was found: take its lists, restore, and draw the strokes. */
    method TakeLoaded(data: PageAnnotations)
      requires Valid()
      modifies this`doc, this`textAnnotations, this`drawPaths, this`hasCanvas, this`canvas
      ensures Valid()
      ensures textAnnotations == data.textAnnotations && drawPaths == LoadedPaths(data.drawAnnotations) &&
        doc == RestoreAll(old(doc), data.textAnnotations) &&
        (drawPaths != [] ==> hasCanvas && canvas == Replay(drawPaths)) &&
        (drawPaths == [] ==> hasCanvas == old(hasCanvas) && canvas == old(canvas))
    {
      textAnnotations := data.textAnnotations;
      drawPaths := if |data.drawAnnotations| > 0 then data.drawAnnotations[0].paths else [];
      RestoreTextAnnotations();
      if |drawPaths| > 0 {
        EnsureCanvas();
        RedrawCanvas();
      }
    }

    /** `restoreTextAnnotations`: for each entry in order, resolve its path and apply it to the node found. */
    method RestoreTextAnnotations()
      modifies this`doc
      ensures doc == RestoreAll(old(doc), textAnnotations)
    {
      var i := 0;
      while i < |textAnnotations|
        invariant 0 <= i <= |textAnnotations|
        invariant RestoreAll(doc, textAnnotations[i..]) == RestoreAll(old(doc), textAnnotations)
      {
        var annotation := textAnnotations[i];
        assert textAnnotations[i..][0] == annotation && textAnnotations[i..][1..] == textAnnotations[i + 1..];
        var element := Resolve(doc, annotation.xpath);
        if element.Some? {
          ResolveValid(doc, annotation.xpath);
          ApplyTextAnnotationAt(element.value, annotation);
        }
        i := i + 1;
      }
    }

    /** `applyTextAnnotation`: a text node with a parent is split around a container; any other node is left alone. */
    method ApplyTextAnnotationAt(p: Pos, annotation: TextAnnotation)
      requires ValidPos(doc, p)
      modifies this`doc
      ensures doc == if |p| > 0 && NodeAt(old(doc), p).Text? then SplitAt(old(doc), p, annotation) else old(doc)
    {
      if !NodeAt(doc, p).Text? {
        return;
      }
      if |p| == 0 {
        return;
      }
      ParentValid(doc, p);
      doc := ApplyTextAnnotation(doc, Parent(p), Last(p), annotation);
    }

    // -------------------------------------------------------------------------
    // The canvas

    /** `ensureCanvas`: create the canvas when there is none, sized to the page, which shows the strokes. */
    method EnsureCanvas()
      requires Valid()
      modifies this`hasCanvas, this`canvas
      ensures Valid() && hasCanvas
      ensures old(hasCanvas) ==> canvas == old(canvas)
      ensures !old(hasCanvas) ==> canvas == Replay(drawPaths)
    {
      if hasCanvas {
        return;
      }
      hasCanvas := true;
      RedrawCanvas();
    }

    /** `redrawCanvas`: clear the canvas and draw every committed stroke in order. */
    method RedrawCanvas()
      requires Valid()
      modifies this`canvas
      ensures Valid()
      ensures canvas == if hasCanvas then Replay(drawPaths) else old(canvas)
    {
      if !hasCanvas {
        return;
      }
      var paths := drawPaths;
      var cmds: seq<Cmd> := [];
      var i := 0;
      while i < |paths|
        invariant 0 <= i <= |paths| && cmds == Replay(paths[..i])
      {
        var stroke := EmitStroke(paths[i]);
        ReplayPrefixStep(paths, i);
        cmds := cmds + stroke;
        i := i + 1;
      }
      assert paths[..i] == paths;
      canvas := cmds;
    }

    /** `drawPath`: the stroke's commands, added to what the canvas shows; nothing without a canvas. */
    method DrawStroke(path: DrawPath)
      requires Valid()
      modifies this`canvas
      ensures Valid()
      ensures canvas == if hasCanvas then old(canvas) + Replay([path]) else old(canvas)
    {
      if !hasCanvas {
        return;
      }
      var cmds := EmitStroke(path);
      assert Replay([path]) == StrokeCommands(path) + Replay([path][1..]);
      canvas := canvas + cmds;
    }

    /** `updateModeState`: in draw mode the canvas exists and takes mouse events; in select mode it does not, and the eraser is off. */
    method UpdateModeState()
      requires Valid()
      modifies this`hasCanvas, this`canvas, this`canvasActive, this`isErasing
      ensures Valid()
      ensures mode == DrawMode ==>
        hasCanvas && canvasActive && isErasing == old(isErasing) &&
        (old(hasCanvas) ==> canvas == old(canvas)) && (!old(hasCanvas) ==> canvas == Replay(drawPaths))
      ensures mode == SelectMode ==> !canvasActive && !isErasing && hasCanvas == old(hasCanvas) && canvas == old(canvas)
    {
      if mode == DrawMode {
        EnsureCanvas();
        canvasActive := true;
      } else {
        canvasActive := false;
        isErasing := false;
      }
    }

    // -------------------------------------------------------------------------
    // Strokes

    /** `handleMouseDown`: on the active canvas, start drawing; erase at the point, or start a one-sample stroke. */
    method HandleMouseDown(x: int, y: int, now: int)
      requires Valid()
      modifies this`isDrawing, this`currentPath, this`drawPaths, this`canvas, store
      ensures Valid()
      ensures !canvasActive ==>
        isDrawing == old(isDrawing) && currentPath == old(currentPath) &&
        drawPaths == old(drawPaths) && canvas == old(canvas) && store.records == old(store.records)
      ensures canvasActive ==> isDrawing
      ensures canvasActive && !isErasing ==>
        currentPath == Some(DrawPath([Point(x, y)], drawColor, drawWidth)) &&
        drawPaths == old(drawPaths) && canvas == old(canvas) && store.records == old(store.records)
      ensures canvasActive && isErasing ==>
        currentPath == old(currentPath) && drawPaths == KeepStrokes(old(drawPaths), x, y) &&
        (|drawPaths| == |old(drawPaths)| ==> canvas == old(canvas) && store.records == old(store.records)) &&
        (|drawPaths| != |old(drawPaths)| ==>
          canvas == (if hasCanvas then Replay(drawPaths) else old(canvas)) &&
          store.records == old(store.records)[GetPageKey(href) :=
            PageAnnotations(GetPageKey(href), textAnnotations, SavedDrawAnnotations(drawPaths), now)])
    {
      if !canvasActive {
        return;
      }
      isDrawing := true;
      if isErasing {
        EraseAtPoint(x, y, now);
      } else {
        currentPath := Some(DrawPath([Point(x, y)], drawColor, drawWidth));
      }
    }

    /**
     * `handleMouseMove`: while drawing, erase at the point, or add the sample
     * to the stroke and show the committed strokes with the stroke on top.
     */
    method HandleMouseMove(x: int, y: int, now: int)
      requires Valid()
      modifies this`currentPath, this`drawPaths, this`canvas, store
      ensures Valid()
      ensures !isDrawing || !hasCanvas || (!isErasing && old(currentPath).None?) ==>
        currentPath == old(currentPath) && drawPaths == old(drawPaths) && canvas == old(canvas) &&
        store.records == old(store.records)
      ensures isDrawing && hasCanvas && !isErasing && old(currentPath).Some? ==>
        var p := old(currentPath).value;
        currentPath == Some(p.(points := p.points + [Point(x, y)])) && drawPaths == old(drawPaths) &&
        canvas == Replay(drawPaths + [currentPath.value]) && store.records == old(store.records)
      ensures isDrawing && hasCanvas && isErasing ==>
        currentPath == old(currentPath) && drawPaths == KeepStrokes(old(drawPaths), x, y) &&
        (|drawPaths| == |old(drawPaths)| ==> canvas == old(canvas) && store.records == old(store.records)) &&
        (|drawPaths| != |old(drawPaths)| ==>
          canvas == Replay(drawPaths) &&
          store.records == old(store.records)[GetPageKey(href) :=
            PageAnnotations(GetPageKey(href), textAnnotations, SavedDrawAnnotations(drawPaths), now)])
    {
      if !isDrawing || !hasCanvas {
        return;
      }
      if isErasing {
        EraseAtPoint(x, y, now);
      } else if currentPath.Some? {
        var p := currentPath.value;
        currentPath := Some(p.(points := p.points + [Point(x, y)]));
        RedrawCanvas();
        DrawStroke(currentPath.value);
        ReplayAppend(drawPaths, [currentPath.value]);
      }
    }

    /** `handleMouseUp`: commit the stroke when it has more than one sample, and stop drawing. */
    method HandleMouseUp(now: int)
      requires Valid()
      modifies this`isDrawing, this`currentPath, this`drawPaths, store
      ensures Valid() && !isDrawing && currentPath == None
      ensures var committed := old(currentPath).Some? && |old(currentPath).value.points| > 1;
        drawPaths == old(drawPaths) + (if committed then [old(currentPath).value] else []) &&
        store.records == if committed then old(store.records)[GetPageKey(href) :=
          PageAnnotations(GetPageKey(href), textAnnotations, SavedDrawAnnotations(drawPaths), now)]
        else old(store.records)
    {
      if currentPath.Some? && |currentPath.value.points| > 1 {
        drawPaths := drawPaths + [currentPath.value];
        SaveState(now);
      }
      isDrawing := false;
      currentPath := None;
    }

    /**
     * `eraseAtPoint`: drop every stroke with a sample within the eraser's
     * radius of the point; redraw and save only when a stroke was dropped.
     */
    method EraseAtPoint(x: int, y: int, now: int)
      requires Valid()
      modifies this`drawPaths, this`canvas, store
      ensures Valid()
      ensures drawPaths == KeepStrokes(old(drawPaths), x, y)
      ensures |drawPaths| == |old(drawPaths)| ==> canvas == old(canvas) && store.records == old(store.records)
      ensures |drawPaths| != |old(drawPaths)| ==>
        canvas == (if hasCanvas then Replay(drawPaths) else old(canvas)) &&
        store.records == old(store.records)[GetPageKey(href) :=
          PageAnnotations(GetPageKey(href), textAnnotations, SavedDrawAnnotations(drawPaths), now)]
    {
      var before := |drawPaths|;
      drawPaths := KeepStrokes(drawPaths, x, y);
      if |drawPaths| != before {
        RedrawCanvas();
        SaveState(now);
      }
    }

    /** `resetDrawings`: drop every stroke, clear the canvas and save. */
    method ResetDrawings(now: int)
      requires Valid()
      modifies this`drawPaths, this`canvas, store
      ensures Valid() && drawPaths == []
      ensures canvas == if hasCanvas then [] else old(canvas)
      ensures store.records == old(store.records)[GetPageKey(href) := PageAnnotations(GetPageKey(href), textAnnotations, [], now)]
    {
      drawPaths := [];
      RedrawCanvas();
      SaveState(now);
    }

    // -------------------------------------------------------------------------
    // Wrapping a selection

    /**
     * `safeWrapSelectionWithTracking`: split every text node of the selection
     * around a container built from the template (id `baseId`, `style`), in
     * list order on the page as the earlier splits left it, and return one
     * record per node actually wrapped.
     */
    method SafeWrapSelectionWithTracking(range: Range, style: Style, baseId: string) returns (annotations: seq<TextAnnotation>)
      requires Usable(doc, range)
      modifies this`doc
      ensures var w := SafeWrap(old(doc), range, baseId, style); doc == w.doc && annotations == w.records
    {
      ghost var root := doc;
      var textNodes := GetTextNodesInRange(doc, range);
      if |textNodes| == 0 {
        return [];
      }
      annotations := [];
      var lives := textNodes;
      WrapLoopStart(root, range, baseId, style);
      var i := 0;
      while i < |textNodes|
        invariant 0 <= i <= |textNodes| && |lives| == |textNodes|
        invariant WrapLoop(root, range, textNodes, doc, lives, i, annotations, baseId, style)
        decreases |textNodes| - i
      {
        WrapLoopLive(root, range, textNodes, doc, lives, i, annotations, baseId, style);
        WrapLoopStep(root, range, textNodes, doc, lives, i, annotations, baseId, style);
        var made;
        made, lives := WrapTextNode(range, style, baseId, textNodes, lives, i);
        annotations := annotations + made;
        i := i + 1;
      }
      WrapLoopEnd(root, range, textNodes, doc, lives, i, annotations, baseId, style);
    }

    /** One turn of the loop of `safeWrapSelectionWithTracking`: the node at index `i` of the list, at its live position. */
    method WrapTextNode(range: Range, style: Style, baseId: string, textNodes: seq<Pos>, lives: seq<Pos>, i: nat)
        returns (made: seq<TextAnnotation>, lives': seq<Pos>)
      requires |textNodes| == |lives| && i < |lives| && ValidPos(doc, lives[i]) && NodeAt(doc, lives[i]).Text?
      modifies this`doc
      ensures Turn(doc, lives', made) == Advance(old(doc), range, textNodes, lives, i, baseId, style)
    {
      var lp := lives[i];
      var text := NodeAt(doc, lp).content;
      if text == "" || |lp| == 0 {
        AdvanceSkipped(doc, range, textNodes, lives, i, baseId, style);
        return [], lives;
      }
      var startIdx, endIdx := 0, |text|;
      if textNodes[i] == range.start.node {
        startIdx := range.start.offset;
      }
      if textNodes[i] == range.end.node {
        endIdx := range.end.offset;
      }
      var beforeText := Substring(text, 0, startIdx);
      var selectedText := Substring(text, startIdx, endIdx);
      var afterText := Substring(text, endIdx, |text|);
      if selectedText == "" {
        AdvanceSkipped(doc, range, textNodes, lives, i, baseId, style);
        return [], lives;
      }
      var annotation := TextAnnotation(RecordId(baseId, i), selectedText, startIdx, endIdx, GetXPath(doc, lp), style);
      var fragment := TextChildren(beforeText) + [Wrapper(baseId, style, [Text(selectedText)])] + TextChildren(afterText);
      ParentSlot(doc, lp);
      var q, idx := Parent(lp), Last(lp);
      AdvanceStep(doc, range, textNodes, lives, i, baseId, style, q, idx);
      assert fragment == Fragment(text, startIdx, endIdx, baseId, style);
      doc := Splice(doc, q, idx, fragment);
      made := [annotation];
      lives' := ShiftAll(lives, q, idx, |fragment|);
    }

    // -------------------------------------------------------------------------
    // Removing annotations

    /** The unwrap of `removeAnnotation`: move the container's children before it, remove it, normalise the parent. */
    method UnwrapHighlight(hp: Pos)
      requires HighlightAt(doc, hp) && |hp| > 0
      modifies this`doc
      ensures doc == UnwrapAt(old(doc), hp)
    {
      ParentValid(doc, hp);
      var q, j := Parent(hp), Last(hp);
      var parent := NodeAt(doc, q);
      var kids := HoistChildren(Kids(parent), j);
      doc := SetAt(doc, q, NormalizeNode(WithKids(parent, kids)));
    }

    /**
     * `removeAnnotation`: find the container at or above the selection's
     * start; drop every ledger entry carrying its id, unwrap it when it has
     * a parent, and save. The selection is cleared in every case.
     */
    method RemoveAnnotation(now: int)
      requires Valid()
      modifies this`doc, this`textAnnotations, this`selectedRange, store
      ensures Valid() && selectedRange == None
      ensures var h := FoundHighlight(old(doc), old(selectedRange));
        h.None? ==> doc == old(doc) && textAnnotations == old(textAnnotations) && store.records == old(store.records)
      ensures var h := FoundHighlight(old(doc), old(selectedRange));
        h.Some? ==>
          textAnnotations == WithoutId(old(textAnnotations), IdOf(NodeAt(old(doc), h.value))) &&
          doc == (if |h.value| > 0 then UnwrapAt(old(doc), h.value) else old(doc)) &&
          store.records == old(store.records)[GetPageKey(href) :=
            PageAnnotations(GetPageKey(href), textAnnotations, SavedDrawAnnotations(drawPaths), now)]
      ensures var h := FoundHighlight(old(doc), old(selectedRange));
        h.Some? && |h.value| > 0 ==> TextOf(doc) == TextOf(old(doc)) && HighlightCount(doc) + 1 == HighlightCount(old(doc))
    {
      if selectedRange.Some? && ValidPos(doc, selectedRange.value.start.node) {
        var highlight := FindExistingHighlight(doc, selectedRange.value.start.node);
        assert highlight == FoundHighlight(doc, selectedRange);
        if highlight.Some? {
          var hp := highlight.value;
          var annotationId := IdOf(NodeAt(doc, hp));
          textAnnotations := WithoutId(textAnnotations, annotationId);
          if |hp| > 0 {
            UnwrapAtEffect(doc, hp);
            UnwrapHighlight(hp);
          }
          SaveState(now);
        }
      }
      selectedRange := None;
    }

    // -------------------------------------------------------------------------
    // Styling the selection

    /**
     * `applyStyle`. When the selection's start lies inside a container and
     * the ledger has an entry with the container's id, the entry's style and
     * the container's dataset are edited together; a style left with nothing
     * set removes the annotation instead. Otherwise the selection is wrapped
     * in new containers with only the pressed button's field set, and the
     * records made are added to the ledger. A selection that is missing or
     * does not fit the page changes nothing.
     */
    method ApplyStyle(action: Action, baseId: string, now: int)
      requires Valid()
      modifies this`doc, this`textAnnotations, this`selectedRange, store
      ensures Valid()
      ensures old(selectedRange).None? || !Usable(old(doc), old(selectedRange).value) ==>
        doc == old(doc) && textAnnotations == old(textAnnotations) && selectedRange == old(selectedRange) &&
        store.records == old(store.records)
      ensures old(selectedRange).Some? && Usable(old(doc), old(selectedRange).value) ==>
        selectedRange == None
      ensures old(selectedRange).Some? && Usable(old(doc), old(selectedRange).value) &&
              FoundHighlight(old(doc), old(selectedRange)).None? ==>
        var w := SafeWrap(old(doc), old(selectedRange).value, baseId, NewStyle(action));
        doc == w.doc && textAnnotations == old(textAnnotations) + w.records &&
        store.records == if w.records == [] then old(store.records) else old(store.records)[GetPageKey(href) :=
          PageAnnotations(GetPageKey(href), textAnnotations, SavedDrawAnnotations(drawPaths), now)]
      ensures var h := FoundHighlight(old(doc), old(selectedRange));
        old(selectedRange).Some? && Usable(old(doc), old(selectedRange).value) && h.Some? &&
        FindById(old(textAnnotations), IdOf(NodeAt(old(doc), h.value))).None? ==>
        doc == old(doc) && textAnnotations == old(textAnnotations) && store.records == old(store.records)
      ensures var h := FoundHighlight(old(doc), old(selectedRange));
        old(selectedRange).Some? && Usable(old(doc), old(selectedRange).value) && h.Some? &&
        FindById(old(textAnnotations), IdOf(NodeAt(old(doc), h.value))).Some? ==>
        var hp := h.value;
        var k := FindById(old(textAnnotations), IdOf(NodeAt(old(doc), hp))).value;
        var entry := old(textAnnotations)[k];
        var st := UpdateStyle(entry.style, action);
        var edited := Restyle(old(doc), hp, action, st);
        store.records == old(store.records)[GetPageKey(href) :=
          PageAnnotations(GetPageKey(href), textAnnotations, SavedDrawAnnotations(drawPaths), now)] &&
        (!IsEmptyStyle(st) ==> textAnnotations == old(textAnnotations)[k := entry.(style := st)] && doc == edited) &&
        (IsEmptyStyle(st) ==>
          textAnnotations == WithoutId(old(textAnnotations), IdOf(NodeAt(old(doc), hp))) &&
          doc == if |hp| > 0 then UnwrapAt(edited, hp) else edited)
    {
      if selectedRange.None? || !Usable(doc, selectedRange.value) {
        return;
      }
      var range := selectedRange.value;
      var existingHighlight := FindExistingHighlight(doc, range.start.node);
      assert existingHighlight == FoundHighlight(doc, selectedRange);
      if existingHighlight.Some? {
        var hp := existingHighlight.value;
        var annotationId := IdOf(NodeAt(doc, hp));
        var found := FindById(textAnnotations, annotationId);
        if found.Some? {
          RestyleEntry(hp, found.value, action, now);
          return;
        }
      } else {
        AnnotateSelection(action, baseId, now);
        return;
      }
      selectedRange := None;
    }

    /**
     * The new-annotation branch of `applyStyle`: wrap the selection in
     * containers with only the pressed button's field set, add the records
     * to the ledger and save when there are any.
     */
    method AnnotateSelection(action: Action, baseId: string, now: int)
      requires Valid() && selectedRange.Some? && Usable(doc, selectedRange.value)
      modifies this`doc, this`textAnnotations, this`selectedRange, store
      ensures Valid() && selectedRange == None
      ensures var w := SafeWrap(old(doc), old(selectedRange).value, baseId, NewStyle(action));
        doc == w.doc && textAnnotations == old(textAnnotations) + w.records &&
        store.records == if w.records == [] then old(store.records) else old(store.records)[GetPageKey(href) :=
          PageAnnotations(GetPageKey(href), textAnnotations, SavedDrawAnnotations(drawPaths), now)]
    {
      var range := selectedRange.value;
      var style := NewStyle(action);
      var wrappedNodes := SafeWrapSelectionWithTracking(range, style, baseId);
      if |wrappedNodes| > 0 {
        textAnnotations := textAnnotations + wrappedNodes;
        SaveState(now);
      }
      selectedRange := None;
    }

    /**
     * The update branch of `applyStyle` for the container at `hp`, found from
     * the selection's start, whose id the ledger entry at `k` carries.
     */
    method RestyleEntry(hp: Pos, k: nat, action: Action, now: int)
      requires Valid() && FoundHighlight(doc, selectedRange) == Some(hp)
      requires k < |textAnnotations| && IdOf(NodeAt(doc, hp)) == Some(textAnnotations[k].id)
      modifies this`doc, this`textAnnotations, this`selectedRange, store
      ensures Valid() && selectedRange == None
      ensures var entry := old(textAnnotations)[k];
        var st := UpdateStyle(entry.style, action);
        var edited := Restyle(old(doc), hp, action, st);
        store.records == old(store.records)[GetPageKey(href) :=
          PageAnnotations(GetPageKey(href), textAnnotations, SavedDrawAnnotations(drawPaths), now)] &&
        (!IsEmptyStyle(st) ==> textAnnotations == old(textAnnotations)[k := entry.(style := st)] && doc == edited) &&
        (IsEmptyStyle(st) ==>
          textAnnotations == WithoutId(old(textAnnotations), IdOf(NodeAt(old(doc), hp))) &&
          doc == if |hp| > 0 then UnwrapAt(edited, hp) else edited)
    {
      var annotation := textAnnotations[k];
      var st := UpdateStyle(annotation.style, action);
      ghost var ledger := textAnnotations;
      var container := NodeAt(doc, hp);
      RestyleKeepsFound(doc, selectedRange, hp, action, st);
      doc := Restyle(doc, hp, action, st);
      textAnnotations := textAnnotations[k := annotation.(style := st)];
      if IsEmptyStyle(st) {
        WithoutIdUpdate(ledger, IdOf(container), k, annotation.(style := st));
        RemoveAnnotation(now);
        return;
      }
      SaveState(now);
      selectedRange := None;
    }

    /**
     * `resetAll`: when confirmed, unwrap every container on the page, then
     * drop the ledger and the strokes, clear the canvas and save.
     * The containers are taken in document order; unwrapping one leaves the
     * others in the same order, so taking the first remaining one each time
     * visits them as the list collected up front does.
     */
    method ResetAll(confirmed: bool, now: int)
      requires Valid()
      modifies this`doc, this`textAnnotations, this`drawPaths, this`canvas, store
      ensures Valid()
      ensures !confirmed ==>
        doc == old(doc) && textAnnotations == old(textAnnotations) && drawPaths == old(drawPaths) &&
        canvas == old(canvas) && store.records == old(store.records)
      ensures confirmed ==>
        HighlightCountSeq(Kids(doc)) == 0 && TextOf(doc) == TextOf(old(doc)) &&
        textAnnotations == [] && drawPaths == [] && canvas == (if hasCanvas then [] else old(canvas)) &&
        store.records == old(store.records)[GetPageKey(href) := PageAnnotations(GetPageKey(href), [], [], now)]
    {
      if !confirmed {
        return;
      }
      var next := FirstHighlight(doc);
      while next.Some?
        invariant next == FirstHighlight(doc) && TextOf(doc) == TextOf(old(doc))
        modifies this`doc
        decreases HighlightCount(doc)
      {
        FirstHighlightFound(doc);
        UnwrapAtEffect(doc, next.value);
        UnwrapHighlight(next.value);
        next := FirstHighlight(doc);
      }
      FirstHighlightNone(doc);
      textAnnotations := [];
      drawPaths := [];
      RedrawCanvas();
      SaveState(now);
    }

    // -------------------------------------------------------------------------
    // Modes and selection

    /** `activate`: the annotator is on, and the canvas follows the mode. */
    method Activate()
      requires Valid()
      modifies this`isActive, this`hasCanvas, this`canvas, this`canvasActive, this`isErasing
      ensures Valid() && isActive
      ensures mode == DrawMode ==>
        hasCanvas && canvasActive && isErasing == old(isErasing) &&
        (old(hasCanvas) ==> canvas == old(canvas)) && (!old(hasCanvas) ==> canvas == Replay(drawPaths))
      ensures mode == SelectMode ==> !canvasActive && !isErasing && hasCanvas == old(hasCanvas) && canvas == old(canvas)
    {
      isActive := true;
      UpdateModeState();
    }

    /** `deactivate`: the annotator is off, and the canvas no longer takes mouse events; the strokes stay on it. */
    method Deactivate()
      requires Valid()
      modifies this`isActive, this`canvasActive, this`isErasing
      ensures Valid() && !isActive && !canvasActive && !isErasing
    {
      isActive := false;
      canvasActive := false;
      isErasing := false;
    }

    /** `toggle`: deactivate when active, activate otherwise. */
    method Toggle()
      requires Valid()
      modifies this`isActive, this`hasCanvas, this`canvas, this`canvasActive, this`isErasing
      ensures Valid() && isActive == !old(isActive)
      ensures old(isActive) ==> !canvasActive && !isErasing && hasCanvas == old(hasCanvas) && canvas == old(canvas)
      ensures !old(isActive) && mode == DrawMode ==>
        hasCanvas && canvasActive && isErasing == old(isErasing) &&
        (old(hasCanvas) ==> canvas == old(canvas)) && (!old(hasCanvas) ==> canvas == Replay(drawPaths))
      ensures !old(isActive) && mode == SelectMode ==>
        !canvasActive && !isErasing && hasCanvas == old(hasCanvas) && canvas == old(canvas)
    {
      if isActive {
        Deactivate();
      } else {
        Activate();
      }
    }

    /** The mode buttons: a different mode is taken, and the canvas follows it. */
    method SetMode(newMode: Mode)
      requires Valid()
      modifies this`mode, this`hasCanvas, this`canvas, this`canvasActive, this`isErasing
      ensures Valid() && mode == newMode
      ensures newMode == old(mode) ==>
        hasCanvas == old(hasCanvas) && canvas == old(canvas) && canvasActive == old(canvasActive) && isErasing == old(isErasing)
      ensures newMode != old(mode) && newMode == DrawMode ==>
        hasCanvas && canvasActive && isErasing == old(isErasing) &&
        (old(hasCanvas) ==> canvas == old(canvas)) && (!old(hasCanvas) ==> canvas == Replay(drawPaths))
      ensures newMode != old(mode) && newMode == SelectMode ==>
        !canvasActive && !isErasing && hasCanvas == old(hasCanvas) && canvas == old(canvas)
    {
      if newMode != mode {
        mode := newMode;
        UpdateModeState();
      }
    }

    /** The colour buttons: draw in the given colour (the default when none is given), with the eraser off. */
    method PickColor(color: string)
      modifies this`drawColor, this`isErasing
      ensures drawColor == (if color == "" then "#5046e5" else color) && !isErasing
    {
      drawColor := if color == "" then "#5046e5" else color;
      isErasing := false;
    }

    /** The size slider. */
    method SetDrawWidth(width: int)
      modifies this`drawWidth
      ensures drawWidth == width
    {
      drawWidth := width;
    }

    /** The eraser button. */
    method ToggleEraser()
      modifies this`isErasing
      ensures isErasing == !old(isErasing)
    {
      isErasing := !isErasing;
    }

    /**
     * `handleTextSelection`, after the mouse is released over the page:
     * `sel` is the selection's first range, `None` when there is no
     * selection or it is collapsed or blank; `onUi` says the release was
     * over the panel or the tooltip. In select mode, while active, a
     * selection off the panel is kept for the tooltip's buttons.
     */
    method HandleTextSelection(sel: Option<Range>, onUi: bool)
      modifies this`selectedRange
      ensures mode == SelectMode && isActive && !onUi && sel.Some? ==> selectedRange == sel
      ensures mode != SelectMode || !isActive || onUi || sel.None? ==> selectedRange == old(selectedRange)
    {
      if mode != SelectMode || !isActive {
        return;
      }
      if onUi {
        return;
      }
      if sel.None? {
        return;
      }
      selectedRange := sel;
    }

    // -------------------------------------------------------------------------
    // Sequences of handler calls

    /** A press and release in draw mode with no move in between adds no stroke and saves nothing. */
    method ClickAddsNothing(x: int, y: int, now: int)
      requires Valid() && canvasActive && !isErasing
      modifies this`isDrawing, this`currentPath, this`drawPaths, this`canvas, store
      ensures Valid() && drawPaths == old(drawPaths) && !isDrawing && currentPath == None
      ensures canvas == old(canvas) && store.records == old(store.records)
    {
      HandleMouseDown(x, y, now);
      HandleMouseUp(now);
    }

    /** Erasing twice at the same point is erasing once: the second erase keeps every stroke and saves nothing. */
    method EraseTwice(x: int, y: int, now: int)
      requires Valid()
      modifies this`drawPaths, this`canvas, store
      ensures Valid() && drawPaths == KeepStrokes(old(drawPaths), x, y)
    {
      EraseAtPoint(x, y, now);
      ghost var once := drawPaths;
      ghost var shown, saved := canvas, store.records;
      KeepStrokesIdempotent(old(drawPaths), x, y);
      EraseAtPoint(x, y, now);
      assert drawPaths == once && canvas == shown && store.records == saved;
    }

    /**
     * Saving and then loading gives back the ledger and the strokes; the page
     * is split once more for every entry whose path resolves.
     */
    method SaveAndReload(now: int)
      requires Valid()
      modifies this`doc, this`textAnnotations, this`drawPaths, this`hasCanvas, this`canvas, store
      ensures Valid() && textAnnotations == old(textAnnotations) && drawPaths == old(drawPaths)
      ensures doc == RestoreAll(old(doc), old(textAnnotations))
      ensures drawPaths != [] ==> hasCanvas && canvas == Replay(drawPaths)
    {
      SaveState(now);
      SavedPathsRoundTrip(drawPaths);
      LoadSavedAnnotations();
    }
  }
}
