/**
 * Structural addresses of nodes: `getXPath` and, in place of the browser's
 * `document.evaluate`, a resolver for exactly the path shapes `getXPath`
 * emits. The shapes follow the abbreviated syntax of XPath 1.0 (section 2.5)
 * with positional predicates (section 2.4):
 *
 *   IdPrefix ID IdSuffix   every element whose id is ID (the constants below)
 *   /name[k]          the k-th child element whose lower-cased tag is `name`
 *   /name             every child element whose lower-cased tag is `name`
 *   /text()[k]        the k-th child text node
 *
 * A path is resolved from the document root and yields the first selected
 * node in document order, or `None` when nothing is selected or the string
 * is not one of these shapes.
 */
module XPath {
  import opened Wrappers
  import opened Strings
  import opened Dom

  // ---------------------------------------------------------------------------
  // Sibling counts

  /** How many of `cs[..i]` are text nodes. */
  function TextsBefore(cs: seq<Node>, i: nat): nat
    requires i <= |cs|
  {
    if i == 0 then 0 else TextsBefore(cs, i - 1) + (if cs[i - 1].Text? then 1 else 0)
  }

  /** How many of `cs[..i]` are elements with tag name `tag`. */
  function TagsBefore(cs: seq<Node>, i: nat, tag: string): nat
    requires i <= |cs|
  {
    if i == 0 then 0 else TagsBefore(cs, i - 1, tag) + (if cs[i - 1].Element? && cs[i - 1].tag == tag then 1 else 0)
  }

  /** How many of `cs[..i]` are elements whose lower-cased tag name is `name`. */
  function NamedBefore(cs: seq<Node>, i: nat, name: string): nat
    requires i <= |cs|
  {
    if i == 0 then 0 else NamedBefore(cs, i - 1, name) + (if cs[i - 1].Element? && Lower(cs[i - 1].tag) == name then 1 else 0)
  }

  // ---------------------------------------------------------------------------
  // getXPath

  const IdPrefix := "//*[@id=\""
  const IdSuffix := "\"]"
  const TextTest := "text()["

  /** The address `getXPath` computes for the node at `p`. */
  function GetXPath(root: Node, p: Pos): string
    requires ValidPos(root, p)
    decreases |p|
  {
    var n := NodeAt(root, p);
    if n.Text? then
      if |p| == 0 then ""
      else
        ParentValid(root, p);
        var siblings := Kids(NodeAt(root, Parent(p)));
        GetXPath(root, Parent(p)) + TextStep(TextsBefore(siblings, Last(p)) + 1)
    else if !n.Element? then ""
    else if n.id != "" then IdPrefix + n.id + IdSuffix
    else if |p| == 0 then NamedStep(Lower(n.tag), None)
    else
      ParentValid(root, p);
      var siblings := Kids(NodeAt(root, Parent(p)));
      GetXPath(root, Parent(p)) + NamedStep(Lower(n.tag), Some(TagsBefore(siblings, Last(p), n.tag) + 1))
  }

  // ---------------------------------------------------------------------------
  // Paths as values

  datatype Step = Child(name: string, position: Option<nat>) | TextAt(index: nat)
  datatype Anchor = FromRoot | ById(id: string)
  datatype Path = Path(anchor: Anchor, steps: seq<Step>)

  function Snoc(x: Path, s: Step): Path {
    Path(x.anchor, x.steps + [s])
  }

  /** `/text()[k]` */
  function TextStep(k: nat): string {
    "/" + TextTest + NatToString(k) + "]"
  }

  /** `/name[k]`, or `/name` without a position. */
  function NamedStep(name: string, k: Option<nat>): string {
    match k
    case None => "/" + name
    case Some(k) => "/" + name + "[" + NatToString(k) + "]"
  }

  function RenderStep(s: Step): string {
    match s
    case TextAt(k) => TextStep(k)
    case Child(name, k) => NamedStep(name, k)
  }

  function RenderSteps(ss: seq<Step>): string {
    if ss == [] then "" else RenderStep(ss[0]) + RenderSteps(ss[1..])
  }

  function Render(x: Path): string {
    match x.anchor
    case FromRoot => RenderSteps(x.steps)
    case ById(id) => IdPrefix + id + IdSuffix + RenderSteps(x.steps)
  }

  /** The path `getXPath` spells out, as a value. */
  function PathOf(root: Node, p: Pos): Path
    requires ValidPos(root, p)
    decreases |p|
  {
    var n := NodeAt(root, p);
    if n.Text? then
      if |p| == 0 then Path(FromRoot, [])
      else
        ParentValid(root, p);
        var siblings := Kids(NodeAt(root, Parent(p)));
        Snoc(PathOf(root, Parent(p)), TextAt(TextsBefore(siblings, Last(p)) + 1))
    else if !n.Element? then Path(FromRoot, [])
    else if n.id != "" then Path(ById(n.id), [])
    else if |p| == 0 then Path(FromRoot, [Child(Lower(n.tag), None)])
    else
      ParentValid(root, p);
      var siblings := Kids(NodeAt(root, Parent(p)));
      Snoc(PathOf(root, Parent(p)), Child(Lower(n.tag), Some(TagsBefore(siblings, Last(p), n.tag) + 1)))
  }

  lemma {:induction false} RenderStepsSnoc(ss: seq<Step>, s: Step)
    ensures RenderSteps(ss + [s]) == RenderSteps(ss) + RenderStep(s)
    decreases |ss|
  {
    if ss == [] {
      assert ss + [s] == [s];
    } else {
      var a, b, c := RenderStep(ss[0]), RenderSteps(ss[1..]), RenderStep(s);
      assert RenderSteps(ss + [s]) == a + RenderSteps(ss[1..] + [s]) by {
        assert (ss + [s])[0] == ss[0] && (ss + [s])[1..] == ss[1..] + [s];
      }
      RenderStepsSnoc(ss[1..], s);
      StringAssoc(a, b, c);
    }
  }

  lemma {:induction false} StringAssoc(a: string, b: string, c: string)
    ensures a + (b + c) == a + b + c
  {
  }

  lemma {:induction false} RenderSnoc(x: Path, s: Step)
    ensures Render(Snoc(x, s)) == Render(x) + RenderStep(s)
  {
    RenderStepsSnoc(x.steps, s);
  }

  /** The step `getXPath` appends for a text node or an id-less element below the root. */
  function LastStep(root: Node, p: Pos): Step
    requires ValidPos(root, p) && |p| > 0 && (NodeAt(root, p).Text? || NodeAt(root, p).Element?)
  {
    ParentValid(root, p);
    var n := NodeAt(root, p);
    var siblings := Kids(NodeAt(root, Parent(p)));
    if n.Text? then TextAt(TextsBefore(siblings, Last(p)) + 1)
    else Child(Lower(n.tag), Some(TagsBefore(siblings, Last(p), n.tag) + 1))
  }

  lemma {:induction false} GetXPathStep(root: Node, p: Pos)
    requires ValidPos(root, p) && |p| > 0
    requires NodeAt(root, p).Text? || (NodeAt(root, p).Element? && NodeAt(root, p).id == "")
    ensures ValidPos(root, Parent(p))
    ensures GetXPath(root, p) == GetXPath(root, Parent(p)) + RenderStep(LastStep(root, p))
  {
    ParentValid(root, p);
  }

  lemma {:induction false} PathOfStep(root: Node, p: Pos)
    requires ValidPos(root, p) && |p| > 0
    requires NodeAt(root, p).Text? || (NodeAt(root, p).Element? && NodeAt(root, p).id == "")
    ensures ValidPos(root, Parent(p))
    ensures PathOf(root, p) == Snoc(PathOf(root, Parent(p)), LastStep(root, p))
  {
    ParentValid(root, p);
  }

  /** `getXPath` is the rendering of `PathOf`. */
  lemma {:induction false} GetXPathIsRender(root: Node, p: Pos)
    requires ValidPos(root, p)
    ensures GetXPath(root, p) == Render(PathOf(root, p))
    decreases |p|
  {
    var n := NodeAt(root, p);
    if |p| > 0 && (n.Text? || (n.Element? && n.id == "")) {
      GetXPathStep(root, p);
      PathOfStep(root, p);
      GetXPathIsRender(root, Parent(p));
      RenderSnoc(PathOf(root, Parent(p)), LastStep(root, p));
    } else if n.Element? && n.id == "" {
      assert RenderSteps([Child(Lower(n.tag), None)]) == NamedStep(Lower(n.tag), None) + "";
    }
  }

  /** The positions among `cs[..n]` of the text nodes, in order: the sibling list `getXPath` filters out. */
  function TextSiblings(cs: seq<Node>, n: nat): seq<nat>
    requires n <= |cs|
  {
    if n == 0 then [] else TextSiblings(cs, n - 1) + (if cs[n - 1].Text? then [n - 1] else [])
  }

  /** The positions among `cs[..n]` of the elements with tag name `tag`, in order. */
  function TagSiblings(cs: seq<Node>, n: nat, tag: string): seq<nat>
    requires n <= |cs|
  {
    if n == 0 then [] else TagSiblings(cs, n - 1, tag) + (if cs[n - 1].Element? && cs[n - 1].tag == tag then [n - 1] else [])
  }

  /** `TextSiblings` lists exactly the earlier text nodes, each below `n`. */
  lemma {:induction false} TextSiblingsMembers(cs: seq<Node>, n: nat)
    requires n <= |cs|
    ensures forall k :: 0 <= k < |TextSiblings(cs, n)| ==> TextSiblings(cs, n)[k] < n
    ensures forall j: nat :: j in TextSiblings(cs, n) <==> j < n && cs[j].Text?
  {
    if n > 0 {
      TextSiblingsMembers(cs, n - 1);
    }
  }

  /** `TagSiblings` lists exactly the earlier elements with tag name `tag`, each below `n`. */
  lemma {:induction false} TagSiblingsMembers(cs: seq<Node>, n: nat, tag: string)
    requires n <= |cs|
    ensures forall k :: 0 <= k < |TagSiblings(cs, n, tag)| ==> TagSiblings(cs, n, tag)[k] < n
    ensures forall j: nat :: j in TagSiblings(cs, n, tag) <==> j < n && cs[j].Element? && cs[j].tag == tag
  {
    if n > 0 {
      TagSiblingsMembers(cs, n - 1, tag);
    }
  }

  /** The first place of `x` in `xs`, or `|xs|` when it is absent (`Array.prototype.indexOf`). */
  function IndexOf(xs: seq<nat>, x: nat): (r: nat)
    ensures r <= |xs| && (r < |xs| ==> xs[r] == x)
    ensures forall k :: 0 <= k < r ==> xs[k] != x
  {
    if |xs| == 0 then 0 else if xs[0] == x then 0 else 1 + IndexOf(xs[1..], x)
  }

  lemma {:induction false} IndexOfFirst(xs: seq<nat>, x: nat, k: nat)
    requires k < |xs| && xs[k] == x
    requires forall j :: 0 <= j < k ==> xs[j] != x
    ensures IndexOf(xs, x) == k
  {
    if k > 0 {
      assert xs[0] != x;
      IndexOfFirst(xs[1..], x, k - 1);
    }
  }

  lemma {:induction false} TextSiblingsPrefix(cs: seq<Node>, n: nat, m: nat)
    requires n <= m <= |cs|
    ensures TextSiblings(cs, n) <= TextSiblings(cs, m)
    decreases m - n
  {
    if n < m {
      TextSiblingsPrefix(cs, n + 1, m);
    }
  }

  lemma {:induction false} TagSiblingsPrefix(cs: seq<Node>, n: nat, m: nat, tag: string)
    requires n <= m <= |cs|
    ensures TagSiblings(cs, n, tag) <= TagSiblings(cs, m, tag)
    decreases m - n
  {
    if n < m {
      TagSiblingsPrefix(cs, n + 1, m, tag);
    }
  }

  /** The count of earlier text siblings is the place of a text node in the list of its text siblings. */
  lemma {:induction false} TextsBeforeIsIndex(cs: seq<Node>, i: nat)
    requires i < |cs| && cs[i].Text?
    ensures IndexOf(TextSiblings(cs, |cs|), i) == TextsBefore(cs, i)
  {
    TextsBeforeLength(cs, i);
    TextSiblingsMembers(cs, i);
    var all := TextSiblings(cs, |cs|);
    TextSiblingsPrefix(cs, i + 1, |cs|);
    assert TextSiblings(cs, i + 1) == TextSiblings(cs, i) + [i];
    assert all[TextsBefore(cs, i)] == i;
    forall j | 0 <= j < TextsBefore(cs, i)
      ensures all[j] != i
    {
      assert all[j] == TextSiblings(cs, i)[j];
    }
    IndexOfFirst(all, i, TextsBefore(cs, i));
  }

  lemma {:induction false} TextsBeforeLength(cs: seq<Node>, n: nat)
    requires n <= |cs|
    ensures |TextSiblings(cs, n)| == TextsBefore(cs, n)
  {
    if n > 0 {
      TextsBeforeLength(cs, n - 1);
    }
  }

  lemma {:induction false} TagsBeforeLength(cs: seq<Node>, n: nat, tag: string)
    requires n <= |cs|
    ensures |TagSiblings(cs, n, tag)| == TagsBefore(cs, n, tag)
  {
    if n > 0 {
      TagsBeforeLength(cs, n - 1, tag);
    }
  }

  /** The same for an element among the sibling elements with its tag name. */
  lemma {:induction false} TagsBeforeIsIndex(cs: seq<Node>, i: nat)
    requires i < |cs| && cs[i].Element?
    ensures IndexOf(TagSiblings(cs, |cs|, cs[i].tag), i) == TagsBefore(cs, i, cs[i].tag)
  {
    var tag := cs[i].tag;
    TagsBeforeLength(cs, i, tag);
    TagSiblingsMembers(cs, i, tag);
    var all := TagSiblings(cs, |cs|, tag);
    TagSiblingsPrefix(cs, i + 1, |cs|, tag);
    assert TagSiblings(cs, i + 1, tag) == TagSiblings(cs, i, tag) + [i];
    assert all[TagsBefore(cs, i, tag)] == i;
    forall j | 0 <= j < TagsBefore(cs, i, tag)
      ensures all[j] != i
    {
      assert all[j] == TagSiblings(cs, i, tag)[j];
    }
    IndexOfFirst(all, i, TagsBefore(cs, i, tag));
  }

  /**
   * The addresses that do not depend on a parent: an element with an id is
   * found by the id alone, a parentless element without one by its
   * lower-cased tag, and anything else without a parent gets the empty
   * address, as do comments and the document.
   */
  lemma {:induction false} GetXPathUnparented(root: Node, p: Pos)
    requires ValidPos(root, p)
    ensures var n := NodeAt(root, p);
      (n.Element? && n.id != "" ==> GetXPath(root, p) == "//*[@id=\"" + n.id + "\"]") &&
      (n.Element? && n.id == "" && p == [] ==> GetXPath(root, p) == "/" + Lower(n.tag)) &&
      (n.Comment? || n.Document? || (n.Text? && p == []) ==> GetXPath(root, p) == "")
  {
  }

  /**
   * A text node with a parent: the parent's address, then `/text()[k]` (`TextStep`)
   * where `k - 1` is the node's place in the list of its text siblings.
   */
  lemma {:induction false} GetXPathOfText(root: Node, p: Pos)
    requires ValidPos(root, p) && |p| > 0 && NodeAt(root, p).Text?
    ensures ValidPos(root, Parent(p))
    ensures var cs := Kids(NodeAt(root, Parent(p)));
      GetXPath(root, p) == GetXPath(root, Parent(p)) + TextStep(IndexOf(TextSiblings(cs, |cs|), Last(p)) + 1)
  {
    GetXPathTextStep(root, p);
    TextsBeforeIsIndex(Kids(NodeAt(root, Parent(p))), Last(p));
  }

  lemma {:induction false} GetXPathTextStep(root: Node, p: Pos)
    requires ValidPos(root, p) && |p| > 0 && NodeAt(root, p).Text?
    ensures ValidPos(root, Parent(p)) && Last(p) < |Kids(NodeAt(root, Parent(p)))|
    ensures Kids(NodeAt(root, Parent(p)))[Last(p)] == NodeAt(root, p)
    ensures GetXPath(root, p) == GetXPath(root, Parent(p)) + TextStep(TextsBefore(Kids(NodeAt(root, Parent(p))), Last(p)) + 1)
  {
    ParentValid(root, p);
  }


  /**
   * An element without an id, with a parent: the parent's address, then
   * `/tag[k]` (`NamedStep`) with the lower-cased tag, where `k - 1` is the element's place
   * in the list of the sibling elements with the same tag name.
   */
  lemma {:induction false} GetXPathOfElement(root: Node, p: Pos)
    requires ValidPos(root, p) && |p| > 0 && NodeAt(root, p).Element? && NodeAt(root, p).id == ""
    ensures ValidPos(root, Parent(p))
    ensures var cs := Kids(NodeAt(root, Parent(p)));
      var tag := NodeAt(root, p).tag;
      GetXPath(root, p) == GetXPath(root, Parent(p)) + NamedStep(Lower(tag), Some(IndexOf(TagSiblings(cs, |cs|, tag), Last(p)) + 1))
  {
    GetXPathTagStep(root, p);
    TagsBeforeIsIndex(Kids(NodeAt(root, Parent(p))), Last(p));
  }

  lemma {:induction false} GetXPathTagStep(root: Node, p: Pos)
    requires ValidPos(root, p) && |p| > 0 && NodeAt(root, p).Element? && NodeAt(root, p).id == ""
    ensures ValidPos(root, Parent(p)) && Last(p) < |Kids(NodeAt(root, Parent(p)))|
    ensures Kids(NodeAt(root, Parent(p)))[Last(p)] == NodeAt(root, p)
    ensures GetXPath(root, p) == GetXPath(root, Parent(p)) +
      NamedStep(Lower(NodeAt(root, p).tag), Some(TagsBefore(Kids(NodeAt(root, Parent(p))), Last(p), NodeAt(root, p).tag) + 1))
  {
    ParentValid(root, p);
  }




  // ---------------------------------------------------------------------------
  // Parsing the emitted shapes

  predicate NameChar(c: char) {
    'a' <= c <= 'z' || 'A' <= c <= 'Z' || IsDigit(c) || c == '-' || c == '_' || c == '.'
  }

  predicate ValidName(s: string) {
    |s| > 0 && forall i :: 0 <= i < |s| ==> NameChar(s[i])
  }

  predicate NoQuote(s: string) {
    forall i :: 0 <= i < |s| ==> s[i] != '"'
  }

  /** Length of the longest prefix of `s` made of digits. */
  function DigitRun(s: string): (k: nat)
    ensures k <= |s| && AllDigits(s[..k]) && (k < |s| ==> !IsDigit(s[k]))
  {
    if s == [] || !IsDigit(s[0]) then 0
    else
      var k := 1 + DigitRun(s[1..]);
      assert s[..k] == [s[0]] + s[1..][..k - 1];
      k
  }

  /** Length of the longest prefix of `s` made of name characters. */
  function NameRun(s: string): (k: nat)
    ensures k <= |s| && (forall i :: 0 <= i < k ==> NameChar(s[i])) && (k < |s| ==> !NameChar(s[k]))
  {
    if s == [] || !NameChar(s[0]) then 0 else 1 + NameRun(s[1..])
  }

  /** Index of the first `"` in `s`, or `|s|` when there is none. */
  function QuoteAt(s: string): (k: nat)
    ensures k <= |s| && (forall i :: 0 <= i < k ==> s[i] != '"') && (k < |s| ==> s[k] == '"')
  {
    if s == [] || s[0] == '"' then 0 else 1 + QuoteAt(s[1..])
  }

  /** Reads `k]` off the front of `u`: the number and what follows the bracket. */
  function ParseIndex(u: string): (r: Option<(nat, string)>)
    ensures r.Some? ==> |r.value.1| < |u|
  {
    var k := DigitRun(u);
    if 0 < k < |u| && u[k] == ']' then Some((DigitsValue(u[..k]), u[k + 1..])) else None
  }

  /** Reads one `/name`, `/name[k]` or `/text()[k]` step off the front of `s`. */
  function ParseStep(s: string): (r: Option<(Step, string)>)
    ensures r.Some? ==> |r.value.1| < |s|
  {
    if s == "" || s[0] != '/' then None
    else
      var t := s[1..];
      if TextTest <= t then
        match ParseIndex(t[|TextTest|..])
        case None => None
        case Some((k, rest)) => Some((TextAt(k), rest))
      else
        var k := NameRun(t);
        if k == 0 then None
        else if k < |t| && t[k] == '[' then
          match ParseIndex(t[k + 1..])
          case None => None
          case Some((m, rest)) => Some((Child(t[..k], Some(m)), rest))
        else Some((Child(t[..k], None), t[k..]))
  }

  /** Reads a sequence of steps; `None` for anything else. */
  function ParseSteps(s: string): Option<seq<Step>>
    decreases |s|
  {
    if s == "" then Some([])
    else
      match ParseStep(s)
      case None => None
      case Some((st, rest)) =>
        match ParseSteps(rest)
        case None => None
        case Some(ss) => Some([st] + ss)
  }

  /** Reads a path string; `None` when it is not one of the shapes `getXPath` emits. */
  function Parse(s: string): Option<Path> {
    if s == "" then None
    else if IdPrefix <= s then
      var rest := s[|IdPrefix|..];
      var k := QuoteAt(rest);
      if k + 1 < |rest| && rest[k + 1] == ']' then
        match ParseSteps(rest[k + 2..])
        case Some(ss) => Some(Path(ById(rest[..k]), ss))
        case None => None
      else None
    else
      match ParseSteps(s)
      case Some(ss) => Some(Path(FromRoot, ss))
      case None => None
  }

  predicate StepOk(s: Step) {
    s.Child? ==> ValidName(s.name)
  }

  predicate PathOk(x: Path) {
    (forall i :: 0 <= i < |x.steps| ==> StepOk(x.steps[i])) &&
    (x.anchor.ById? ==> NoQuote(x.anchor.id)) &&
    (x.anchor.FromRoot? ==> x.steps != [])
  }

  lemma {:induction false} DigitRunOf(d: string, x: string)
    requires AllDigits(d) && (x == [] || !IsDigit(x[0]))
    ensures DigitRun(d + x) == |d|
    decreases |d|
  {
    if d == [] {
      assert d + x == x;
    } else {
      assert (d + x)[0] == d[0] && (d + x)[1..] == d[1..] + x;
      DigitRunOf(d[1..], x);
    }
  }

  lemma {:induction false} NameRunOf(n: string, x: string)
    requires forall i :: 0 <= i < |n| ==> NameChar(n[i])
    requires x == [] || !NameChar(x[0])
    ensures NameRun(n + x) == |n|
    decreases |n|
  {
    if n == [] {
      assert n + x == x;
    } else {
      assert (n + x)[0] == n[0] && (n + x)[1..] == n[1..] + x;
      NameRunOf(n[1..], x);
    }
  }

  lemma {:induction false} RenderStepsStart(ss: seq<Step>)
    ensures RenderSteps(ss) == "" || RenderSteps(ss)[0] == '/'
  {
    if ss != [] {
      assert RenderStep(ss[0])[0] == '/';
    }
  }

  lemma {:induction false} NotTextTest(name: string, x: string)
    requires forall i :: 0 <= i < |name| ==> NameChar(name[i])
    requires x == [] || x[0] == '/' || x[0] == '['
    ensures !(TextTest <= name + x)
  {
    var t := name + x;
    if |name| <= 4 {
      if x == [] {
        assert |t| < |TextTest|;
      } else {
        assert t[|name|] == x[0] && TextTest[|name|] != x[0];
      }
    } else {
      assert t[4] == name[4] && NameChar(name[4]) && TextTest[4] == '(';
    }
  }

  lemma {:induction false} ParseIndexOf(k: nat, rest: string)
    ensures ParseIndex(NatToString(k) + ("]" + rest)) == Some((k, rest))
  {
    var d := NatToString(k);
    var u := d + ("]" + rest);
    DigitRunOf(d, "]" + rest);
    assert u[..|d|] == d && u[|d|] == ']' && u[|d| + 1..] == rest;
    NatToStringRoundTrip(k);
  }

  lemma {:induction false} ParseTextStep(k: nat, rest: string)
    ensures ParseStep(TextStep(k) + rest) == Some((TextAt(k), rest))
  {
    var u := NatToString(k) + ("]" + rest);
    var t := TextTest + u;
    assert TextStep(k) + rest == "/" + t;
    assert ("/" + t)[1..] == t;
    assert TextTest <= t && t[|TextTest|..] == u;
    ParseIndexOf(k, rest);
  }

  lemma {:induction false} ParseAnyStep(name: string, rest: string)
    requires ValidName(name) && (rest == "" || rest[0] == '/')
    ensures ParseStep(NamedStep(name, None) + rest) == Some((Child(name, None), rest))
  {
    var t := name + rest;
    assert NamedStep(name, None) + rest == "/" + t;
    assert ("/" + t)[1..] == t;
    NameRunOf(name, rest);
    NotTextTest(name, rest);
    assert t[|name|..] == rest && t[..|name|] == name;
  }

  lemma {:induction false} ParseBracketStep(name: string, u: string)
    requires ValidName(name) && ParseIndex(u).Some?
    ensures ParseStep("/" + (name + ("[" + u))) ==
      Some((Child(name, Some(ParseIndex(u).value.0)), ParseIndex(u).value.1))
  {
    var t := name + ("[" + u);
    var s := "/" + t;
    assert s[0] == '/' && s[1..] == t by {
      assert s == ['/'] + t;
    }
    assert NameRun(t) == |name| && !(TextTest <= t) by {
      NameRunOf(name, "[" + u);
      NotTextTest(name, "[" + u);
    }
    assert |name| < |t| && t[|name|] == '[' && t[|name| + 1..] == u && t[..|name|] == name by {
      assert t == name + ("[" + u);
    }
    ParseNamedBracket(s, t, |name|);
  }

  /** How `ParseStep` reads a name followed by a bracket. */
  lemma {:induction false} ParseNamedBracket(s: string, t: string, k: nat)
    requires s != "" && s[0] == '/' && s[1..] == t && !(TextTest <= t)
    requires NameRun(t) == k && 0 < k < |t| && t[k] == '[' && ParseIndex(t[k + 1..]).Some?
    ensures ParseStep(s) == Some((Child(t[..k], Some(ParseIndex(t[k + 1..]).value.0)), ParseIndex(t[k + 1..]).value.1))
  {
  }

  lemma {:induction false} ParseIndexedStep(name: string, k: nat, rest: string)
    requires ValidName(name)
    ensures ParseStep(NamedStep(name, Some(k)) + rest) == Some((Child(name, Some(k)), rest))
  {
    var u := NatToString(k) + ("]" + rest);
    assert NamedStep(name, Some(k)) + rest == "/" + (name + ("[" + u));
    ParseIndexOf(k, rest);
    ParseBracketStep(name, u);
  }

  lemma {:induction false} ParseRenderStep(s: Step, rest: string)
    requires StepOk(s) && (rest == "" || rest[0] == '/')
    ensures ParseStep(RenderStep(s) + rest) == Some((s, rest))
  {
    match s
    case TextAt(k) => ParseTextStep(k, rest);
    case Child(name, None) => ParseAnyStep(name, rest);
    case Child(name, Some(k)) => ParseIndexedStep(name, k, rest);
  }

  lemma {:induction false} ParseRenderSteps(ss: seq<Step>)
    requires forall i :: 0 <= i < |ss| ==> StepOk(ss[i])
    ensures ParseSteps(RenderSteps(ss)) == Some(ss)
    decreases |ss|
  {
    if ss != [] {
      RenderStepsStart(ss[1..]);
      ParseRenderStep(ss[0], RenderSteps(ss[1..]));
      ParseRenderSteps(ss[1..]);
      assert [ss[0]] + ss[1..] == ss;
    }
  }

  lemma {:induction false} ParseIdAnchor(id: string, rest: string)
    requires NoQuote(id)
    ensures Parse(IdPrefix + (id + (IdSuffix + rest))) ==
      match ParseSteps(rest) case Some(ss) => Some(Path(ById(id), ss)) case None => None
  {
    var s := IdPrefix + (id + (IdSuffix + rest));
    assert IdPrefix <= s;
    var r := s[|IdPrefix|..];
    assert r == id + (IdSuffix + rest);
    assert QuoteAt(r) == |id| by {
      assert r[|id|] == '"';
    }
    assert r[|id| + 1] == ']' && r[|id| + 2..] == rest && r[..|id|] == id;
  }

  /** The second character of a rendered step is never `/`. */
  lemma {:induction false} StepSecondChar(st: Step, rest: string)
    requires StepOk(st)
    ensures var s := RenderStep(st) + rest;
      |s| > 1 && s[1] != '/'
  {
    match st
    case TextAt(_) =>
    case Child(name, _) =>
      var s := RenderStep(st) + rest;
      assert s[1] == name[0];
  }

  /** A string that does not start with the id anchor is read as steps from the root. */
  lemma {:induction false} ParseNoAnchor(s: string)
    requires s != "" && !(IdPrefix <= s)
    ensures Parse(s) == match ParseSteps(s) case Some(ss') => Some(Path(FromRoot, ss')) case None => None
  {
  }

  lemma {:induction false} ParseFromRoot(ss: seq<Step>)
    requires ss != [] && StepOk(ss[0])
    ensures Parse(RenderSteps(ss)) == match ParseSteps(RenderSteps(ss)) case Some(ss') => Some(Path(FromRoot, ss')) case None => None
  {
    var s := RenderSteps(ss);
    assert s == RenderStep(ss[0]) + RenderSteps(ss[1..]);
    StepSecondChar(ss[0], RenderSteps(ss[1..]));
    assert !(IdPrefix <= s) by {
      assert IdPrefix[1] == '/';
    }
    ParseNoAnchor(s);
  }

  /** Reading a rendered path gives the path back. */
  lemma {:induction false} ParseRender(x: Path)
    requires PathOk(x)
    ensures Parse(Render(x)) == Some(x)
  {
    ParseRenderSteps(x.steps);
    match x.anchor
    case ById(id) =>
      assert Render(x) == IdPrefix + (id + (IdSuffix + RenderSteps(x.steps)));
      ParseIdAnchor(id, RenderSteps(x.steps));
    case FromRoot =>
      ParseFromRoot(x.steps);
  }

  // ---------------------------------------------------------------------------
  // Evaluating a path

  /** Whether child `i` of a node with children `cs` is selected by step `s`. */
  predicate Selects(cs: seq<Node>, i: nat, s: Step) {
    i < |cs| &&
    match s
    case TextAt(k) => cs[i].Text? && TextsBefore(cs, i) + 1 == k
    case Child(name, None) => cs[i].Element? && Lower(cs[i].tag) == name
    case Child(name, Some(k)) => cs[i].Element? && Lower(cs[i].tag) == name && NamedBefore(cs, i, name) + 1 == k
  }

  /** Whether the node at `q` is in the node-set that `x` selects from the root. */
  predicate Matches(root: Node, q: Pos, x: Path)
    decreases |x.steps|
  {
    ValidPos(root, q) &&
    if x.steps == [] then
      match x.anchor
      case FromRoot => q == []
      case ById(id) => |q| > 0 && NodeAt(root, q).Element? && NodeAt(root, q).id == id
    else
      |q| > 0 &&
      (ParentValid(root, q);
       Selects(Kids(NodeAt(root, Parent(q))), Last(q), x.steps[|x.steps| - 1]) &&
       Matches(root, Parent(q), Path(x.anchor, x.steps[..|x.steps| - 1])))
  }

  /** The first node at or below `n` (found at `p`), in document order, that `x` selects. */
  function SearchNode(root: Node, x: Path, p: Pos, n: Node): Option<Pos>
    requires ValidPos(root, p) && NodeAt(root, p) == n
    decreases n, 1
  {
    if Matches(root, p, x) then Some(p)
    else
      match n
      case Element(_, _, _, _, cs) => SearchKids(root, x, p, cs, 0)
      case Document(cs) => SearchKids(root, x, p, cs, 0)
      case _ => None
  }

  function SearchKids(root: Node, x: Path, p: Pos, cs: seq<Node>, i: nat): Option<Pos>
    requires ValidPos(root, p) && Kids(NodeAt(root, p)) == cs && i <= |cs|
    decreases cs, 0, |cs| - i
  {
    if i == |cs| then None
    else
      NodeAtChild(root, p, i);
      match SearchNode(root, x, p + [i], cs[i])
      case Some(q) => Some(q)
      case None => SearchKids(root, x, p, cs, i + 1)
  }

  /** `document.evaluate(xpath, document, null, FIRST_ORDERED_NODE_TYPE, null).singleNodeValue`. */
  function Resolve(root: Node, xpath: string): Option<Pos> {
    match Parse(xpath)
    case None => None
    case Some(x) => SearchNode(root, x, [], root)
  }

  lemma {:induction false} SearchNodeSound(root: Node, x: Path, p: Pos, n: Node)
    requires ValidPos(root, p) && NodeAt(root, p) == n
    ensures SearchNode(root, x, p, n).Some? ==> Matches(root, SearchNode(root, x, p, n).value, x)
    decreases n, 1
  {
    if !Matches(root, p, x) {
      match n
      case Element(_, _, _, _, cs) => SearchKidsSound(root, x, p, cs, 0);
      case Document(cs) => SearchKidsSound(root, x, p, cs, 0);
      case _ =>
    }
  }

  lemma {:induction false} SearchKidsSound(root: Node, x: Path, p: Pos, cs: seq<Node>, i: nat)
    requires ValidPos(root, p) && Kids(NodeAt(root, p)) == cs && i <= |cs|
    ensures SearchKids(root, x, p, cs, i).Some? ==> Matches(root, SearchKids(root, x, p, cs, i).value, x)
    decreases cs, 0, |cs| - i
  {
    if i < |cs| {
      NodeAtChild(root, p, i);
      SearchNodeSound(root, x, p + [i], cs[i]);
      SearchKidsSound(root, x, p, cs, i + 1);
    }
  }

  /** A path that resolves names a node of the tree. */
  lemma {:induction false} ResolveValid(root: Node, xpath: string)
    ensures Resolve(root, xpath).Some? ==> ValidPos(root, Resolve(root, xpath).value)
  {
    match Parse(xpath)
    case None =>
    case Some(x) => SearchNodeSound(root, x, [], root);
  }

  lemma {:induction false} SearchNodeDescends(root: Node, x: Path, p: Pos, n: Node)
    requires ValidPos(root, p) && NodeAt(root, p) == n && !Matches(root, p, x) && |Kids(n)| > 0
    ensures SearchNode(root, x, p, n) == SearchKids(root, x, p, Kids(n), 0)
  {
  }

  lemma {:induction false} SearchNodeFinds(root: Node, x: Path, p: Pos, n: Node, r: Pos)
    requires ValidPos(root, p) && NodeAt(root, p) == n && Matches(root, p + r, x)
    ensures SearchNode(root, x, p, n).Some?
    decreases n, 1
  {
    assert p + [] == p;
    if !Matches(root, p, x) {
      NodeAtAppend(root, p, r);
      assert r[0] < |Kids(n)|;
      assert p + r == (p + [r[0]]) + r[1..];
      SearchNodeDescends(root, x, p, n);
      SearchKidsFinds(root, x, p, Kids(n), 0, r[0], r[1..]);
    }
  }

  lemma {:induction false} SearchKidsFinds(root: Node, x: Path, p: Pos, cs: seq<Node>, i: nat, j: nat, r: Pos)
    requires ValidPos(root, p) && Kids(NodeAt(root, p)) == cs && i <= j < |cs|
    requires Matches(root, p + [j] + r, x)
    ensures SearchKids(root, x, p, cs, i).Some?
    decreases cs, 0, |cs| - i
  {
    NodeAtChild(root, p, i);
    if SearchNode(root, x, p + [i], cs[i]).None? {
      if i == j {
        SearchNodeFinds(root, x, p + [i], cs[i], r);
      } else {
        SearchKidsFinds(root, x, p, cs, i + 1, j, r);
      }
    }
  }

  /** When exactly one node matches, resolution finds it. */
  lemma {:induction false} ResolveUnique(root: Node, x: Path, p: Pos)
    requires Matches(root, p, x)
    requires forall q :: Matches(root, q, x) ==> q == p
    ensures SearchNode(root, x, [], root) == Some(p)
  {
    assert [] + p == p;
    SearchNodeFinds(root, x, [], root, p);
    SearchNodeSound(root, x, [], root);
  }

  // ---------------------------------------------------------------------------
  // The round trip

  /** Siblings whose tags agree after lower-casing have the same tag. */
  predicate SiblingsConsistent(cs: seq<Node>) {
    forall i, j ::
      0 <= i < |cs| && 0 <= j < |cs| && cs[i].Element? && cs[j].Element? && Lower(cs[i].tag) == Lower(cs[j].tag)
      ==> cs[i].tag == cs[j].tag
  }

  predicate NodeOk(n: Node) {
    n.Element? ==> ValidName(Lower(n.tag)) && NoQuote(n.id)
  }

  /**
   * The documents the round trip is stated for: a document root with no
   * inner document, tag names made of name characters, ids free of `"`, and
   * case-consistent sibling tags.
   */
  ghost predicate WellFormed(root: Node) {
    root.Document? && NoInnerDocument(root) &&
    (forall a :: ValidPos(root, a) ==> NodeOk(NodeAt(root, a))) &&
    (forall a :: ValidPos(root, a) ==> SiblingsConsistent(Kids(NodeAt(root, a))))
  }

  /** The id of the element at `a`, or "" when there is none. */
  function IdAt(root: Node, a: Pos): string {
    if ValidPos(root, a) && NodeAt(root, a).Element? then NodeAt(root, a).id else ""
  }

  /** No two elements share a nonempty id. */
  ghost predicate UniqueIds(root: Node) {
    forall a, b :: IdAt(root, a) != "" && IdAt(root, a) == IdAt(root, b) ==> a == b
  }

  lemma {:induction false} NamedBeforeIsTagsBefore(cs: seq<Node>, t: nat, i: nat)
    requires SiblingsConsistent(cs) && t < |cs| && cs[t].Element? && i <= |cs|
    ensures NamedBefore(cs, i, Lower(cs[t].tag)) == TagsBefore(cs, i, cs[t].tag)
    decreases i
  {
    if i > 0 {
      NamedBeforeIsTagsBefore(cs, t, i - 1);
    }
  }

  lemma {:induction false} TextsBeforeGrows(cs: seq<Node>, i: nat, j: nat)
    requires i < j <= |cs| && cs[i].Text?
    ensures TextsBefore(cs, j) > TextsBefore(cs, i)
    decreases j
  {
    if j > i + 1 {
      TextsBeforeGrows(cs, i, j - 1);
    }
  }

  lemma {:induction false} NamedBeforeGrows(cs: seq<Node>, i: nat, j: nat, name: string)
    requires i < j <= |cs| && cs[i].Element? && Lower(cs[i].tag) == name
    ensures NamedBefore(cs, j, name) > NamedBefore(cs, i, name)
    decreases j
  {
    if j > i + 1 {
      NamedBeforeGrows(cs, i, j - 1, name);
    }
  }

  /** An indexed step selects at most one child. */
  lemma {:induction false} SelectsOne(cs: seq<Node>, i: nat, j: nat, s: Step)
    requires Selects(cs, i, s) && Selects(cs, j, s) && (s.TextAt? || s.position.Some?)
    ensures i == j
  {
    if i < j {
      if s.TextAt? { TextsBeforeGrows(cs, i, j); } else { NamedBeforeGrows(cs, i, j, s.name); }
    } else if j < i {
      if s.TextAt? { TextsBeforeGrows(cs, j, i); } else { NamedBeforeGrows(cs, j, i, s.name); }
    }
  }

  /** A node that `getXPath` can address: a text node or element below the document, or the document. */
  predicate Addressable(root: Node, p: Pos)
    requires ValidPos(root, p)
  {
    p == [] || NodeAt(root, p).Text? || NodeAt(root, p).Element?
  }

  lemma {:induction false} ParentAddressable(root: Node, p: Pos)
    requires WellFormed(root) && ValidPos(root, p) && |p| > 0
    ensures ValidPos(root, Parent(p)) && Addressable(root, Parent(p))
  {
    ParentValid(root, p);
    if |Parent(p)| > 0 {
      NoDocumentBelow(root, Parent(p));
    }
  }

  lemma {:induction false} PathOfOk(root: Node, p: Pos)
    requires WellFormed(root) && ValidPos(root, p) && Addressable(root, p)
    ensures (forall i :: 0 <= i < |PathOf(root, p).steps| ==> StepOk(PathOf(root, p).steps[i]))
    ensures PathOf(root, p).anchor.ById? ==> NoQuote(PathOf(root, p).anchor.id)
    ensures p != [] ==> PathOk(PathOf(root, p))
    decreases |p|
  {
    var n := NodeAt(root, p);
    assert NodeOk(n);
    if |p| > 0 && (n.Text? || (n.Element? && n.id == "")) {
      ParentAddressable(root, p);
      PathOfOk(root, Parent(p));
    }
  }

  /** The node `getXPath` addresses is selected by its path. */
  lemma {:induction false} PathOfMatchesSelf(root: Node, p: Pos)
    requires WellFormed(root) && ValidPos(root, p) && Addressable(root, p)
    ensures Matches(root, p, PathOf(root, p))
    decreases |p|
  {
    var n := NodeAt(root, p);
    if |p| > 0 && (n.Text? || (n.Element? && n.id == "")) {
      ParentValid(root, p);
      ParentAddressable(root, p);
      PathOfMatchesSelf(root, Parent(p));
      PathOfStep(root, p);
      var cs := Kids(NodeAt(root, Parent(p)));
      assert Selects(cs, Last(p), LastStep(root, p)) by {
        if n.Element? {
          assert SiblingsConsistent(cs);
          NamedBeforeIsTagsBefore(cs, Last(p), Last(p));
        }
      }
      MatchesSnoc(root, p, PathOf(root, Parent(p)), LastStep(root, p));
    }
  }

  lemma {:induction false} MatchesSnoc(root: Node, q: Pos, x: Path, s: Step)
    requires ValidPos(root, q) && |q| > 0
    requires ValidPos(root, Parent(q)) && Selects(Kids(NodeAt(root, Parent(q))), Last(q), s) && Matches(root, Parent(q), x)
    ensures Matches(root, q, Snoc(x, s))
  {
    var y := Snoc(x, s);
    assert y.steps[|y.steps| - 1] == s;
    assert Path(y.anchor, y.steps[..|y.steps| - 1]) == x;
  }

  /** ... and it is the only node selected. */
  lemma {:induction false} PathOfMatchesOnlySelf(root: Node, p: Pos, q: Pos)
    requires WellFormed(root) && UniqueIds(root) && ValidPos(root, p) && Addressable(root, p)
    requires Matches(root, q, PathOf(root, p))
    ensures q == p
    decreases |p|
  {
    var n := NodeAt(root, p);
    if p == [] {
    } else if n.Element? && n.id != "" {
      assert IdAt(root, q) == n.id && IdAt(root, p) == n.id;
    } else {
      ParentValid(root, p);
      ParentAddressable(root, p);
      var x := PathOf(root, p);
      var px := PathOf(root, Parent(p));
      assert x.steps[..|x.steps| - 1] == px.steps;
      assert |q| > 0;
      ParentValid(root, q);
      PathOfMatchesOnlySelf(root, Parent(p), Parent(q));
      var cs := Kids(NodeAt(root, Parent(p)));
      var s := x.steps[|x.steps| - 1];
      if n.Element? {
        assert SiblingsConsistent(cs);
        NamedBeforeIsTagsBefore(cs, Last(p), Last(p));
      }
      assert Selects(cs, Last(p), s);
      SelectsOne(cs, Last(q), Last(p), s);
      SameSlot(p, q);
    }
  }

  /** Two positions with the same parent and the same last index are equal. */
  lemma {:induction false} SameSlot(p: Pos, q: Pos)
    requires |p| > 0 && |q| > 0 && Parent(p) == Parent(q) && Last(p) == Last(q)
    ensures p == q
  {
    assert p == Parent(p) + [Last(p)];
    assert q == Parent(q) + [Last(q)];
  }

  /**
   * Resolving the address `getXPath` gives a text node or element yields that
   * very node, in a well-formed document whose ids are unique.
   */
  lemma {:induction false} ResolveGetXPath(root: Node, p: Pos)
    requires WellFormed(root) && UniqueIds(root)
    requires ValidPos(root, p) && |p| > 0 && (NodeAt(root, p).Text? || NodeAt(root, p).Element?)
    ensures Resolve(root, GetXPath(root, p)) == Some(p)
  {
    GetXPathIsRender(root, p);
    PathOfOk(root, p);
    ParseRender(PathOf(root, p));
    PathOfMatchesSelf(root, p);
    forall q | Matches(root, q, PathOf(root, p)) ensures q == p {
      PathOfMatchesOnlySelf(root, p, q);
    }
    ResolveUnique(root, PathOf(root, p), p);
  }

  /**
   * The document itself, comments, and text nodes without a parent get the
   * empty address, and the empty address resolves to nothing.
   */
  lemma {:induction false} UnaddressableIsEmpty(root: Node, p: Pos)
    requires ValidPos(root, p)
    requires NodeAt(root, p).Comment? || NodeAt(root, p).Document? || (p == [] && NodeAt(root, p).Text?)
    ensures GetXPath(root, p) == "" && Resolve(root, GetXPath(root, p)) == None
  {
  }
}
