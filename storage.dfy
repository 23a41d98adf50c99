/**
 * The persisted records and the page-keyed store (`saveAnnotations`,
 * `loadAnnotations`, `clearAnnotations`). The IndexedDB object store, whose
 * key path is `url`, is a map from page key to record.
 */
module Storage {
  import opened Wrappers

  /**
   * A text annotation's style. `color` is "" when the style has no colour
   * (the source's `undefined`); an absent flag is `false`. Only the
   * truthiness of each field is ever observed.
   */
  datatype Style = Style(color: string, underline: bool, bold: bool, strikethrough: bool)

  datatype TextAnnotation = TextAnnotation(
    id: string, text: string, startOffset: nat, endOffset: nat, xpath: string, style: Style)

  /** A sample in page coordinates. */
  datatype Point = Point(x: int, y: int)

  datatype DrawPath = DrawPath(points: seq<Point>, color: string, width: int)

  datatype DrawAnnotation = DrawAnnotation(id: string, paths: seq<DrawPath>)

  datatype PageAnnotations = PageAnnotations(
    url: string, textAnnotations: seq<TextAnnotation>, drawAnnotations: seq<DrawAnnotation>, updatedAt: int)

  // ---------------------------------------------------------------------------
  // getPageKey

  /** The schemes the URL Standard calls special that have a host (`file` has none). */
  predicate IsSpecialScheme(s: string) {
    s == "http" || s == "https" || s == "ws" || s == "wss" || s == "ftp"
  }

  /** Index of the first character of `s` that is in `cs`, or `|s|`. */
  function FirstOf(s: string, cs: set<char>): (k: nat)
    ensures k <= |s|
  {
    if s == [] || s[0] in cs then 0 else 1 + FirstOf(s[1..], cs)
  }

  lemma {:induction false} FirstOfSpec(s: string, cs: set<char>)
    ensures forall i :: 0 <= i < FirstOf(s, cs) ==> s[i] !in cs
    ensures FirstOf(s, cs) < |s| ==> s[FirstOf(s, cs)] in cs
  {
    if s != [] && s[0] !in cs {
      FirstOfSpec(s[1..], cs);
    }
  }

  /** What follows the last `c` in `s`, or all of `s` when there is none. */
  function AfterLast(s: string, c: char): (r: string)
    ensures |r| <= |s|
    decreases |s|
  {
    if s == [] then ""
    else if s[|s| - 1] == c then ""
    else AfterLast(s[..|s| - 1], c) + [s[|s| - 1]]
  }

  lemma {:induction false} AfterLastSpec(s: string, c: char)
    ensures AfterLast(s, c) == s[|s| - |AfterLast(s, c)|..]
    ensures forall i :: 0 <= i < |AfterLast(s, c)| ==> AfterLast(s, c)[i] != c
    decreases |s|
  {
    if s != [] && s[|s| - 1] != c {
      var s' := s[..|s| - 1];
      AfterLastSpec(s', c);
      var r := AfterLast(s', c);
      assert s[|s| - |r| - 1..] == s'[|s'| - |r|..] + [s[|s| - 1]];
    }
  }

  /** A URL of a special scheme, cut at the delimiters of its serialization. */
  datatype Url = Url(scheme: string, authority: string, path: string, tail: string)

  const AuthorityEnd: set<char> := {'/', '?', '#'}
  const PathEnd: set<char> := {'?', '#'}

  /**
   * Splits the serialization `scheme://authority path [?query] [#fragment]`;
   * `None` when the string is not of that form or the host is empty.
   */
  function SplitUrl(url: string): Option<Url> {
    var k := FirstOf(url, {':'});
    if IsSpecialScheme(url[..k]) && HasSlashes(url[k..]) then SplitAfterScheme(url[..k], url[k + 3..])
    else None
  }

  /** Starts with `://`. */
  predicate HasSlashes(r: string) {
    |r| >= 3 && r[0] == ':' && r[1] == '/' && r[2] == '/'
  }

  function SplitAfterScheme(scheme: string, after: string): Option<Url> {
    var a := FirstOf(after, AuthorityEnd);
    SplitAfterAuthority(scheme, after[..a], after[a..])
  }

  function SplitAfterAuthority(scheme: string, authority: string, rest: string): Option<Url> {
    var e := FirstOf(rest, PathEnd);
    if AfterLast(authority, '@') == "" then None
    else Some(Url(scheme, authority, rest[..e], rest[e..]))
  }

  /** `scheme://host`: the user information before the last `@` is not part of the origin. */
  function Origin(u: Url): string {
    u.scheme + "://" + AfterLast(u.authority, '@')
  }

  function Pathname(u: Url): string {
    if u.path == "" then "/" else u.path
  }

  /** `origin + pathname`, or the input itself when it does not parse. */
  function GetPageKey(url: string): string {
    match SplitUrl(url)
    case Some(u) => Origin(u) + Pathname(u)
    case None => url
  }

  /** Neither a query nor a fragment. */
  predicate NoQueryOrFragment(s: string) {
    forall i :: 0 <= i < |s| ==> s[i] !in PathEnd
  }

  /** A (possibly empty) query-and-fragment suffix. */
  predicate IsTail(t: string) {
    t == "" || t[0] in PathEnd
  }

  function Serialize(u: Url): string {
    u.scheme + ("://" + (u.authority + (u.path + u.tail)))
  }

  /** The parts of a URL as its serialization delimits them. */
  predicate UrlOk(u: Url) {
    IsSpecialScheme(u.scheme) &&
    (forall i :: 0 <= i < |u.authority| ==> u.authority[i] !in AuthorityEnd) &&
    AfterLast(u.authority, '@') != "" &&
    (u.path == "" || u.path[0] == '/') && NoQueryOrFragment(u.path) &&
    IsTail(u.tail)
  }

  lemma {:induction false} FirstOfAppend(a: string, b: string, cs: set<char>)
    ensures FirstOf(a + b, cs) == if FirstOf(a, cs) < |a| then FirstOf(a, cs) else |a| + FirstOf(b, cs)
    decreases |a|
  {
    if a == [] {
      assert a + b == b;
    } else {
      assert (a + b)[0] == a[0] && (a + b)[1..] == a[1..] + b;
      FirstOfAppend(a[1..], b, cs);
    }
  }

  /** `FirstOf(a + b)` is `|a|` when `a` has none of `cs` and `b` is empty or starts with one. */
  lemma {:induction false} FirstOfBoundary(a: string, b: string, cs: set<char>)
    requires forall i :: 0 <= i < |a| ==> a[i] !in cs
    requires b == "" || b[0] in cs
    ensures FirstOf(a + b, cs) == |a| && (a + b)[..|a|] == a && (a + b)[|a|..] == b
  {
    FirstOfAppend(a, b, cs);
    FirstOfAll(a, cs);
  }

  lemma {:induction false} FirstOfAll(s: string, cs: set<char>)
    requires forall i :: 0 <= i < |s| ==> s[i] !in cs
    ensures FirstOf(s, cs) == |s|
  {
    if s != [] {
      FirstOfAll(s[1..], cs);
    }
  }

  lemma {:induction false} SchemeChars(s: string)
    requires IsSpecialScheme(s)
    ensures forall i :: 0 <= i < |s| ==> s[i] != ':'
  {
  }

  lemma {:induction false} SplitAfterAuthorityOf(u: Url)
    requires UrlOk(u)
    ensures SplitAfterAuthority(u.scheme, u.authority, u.path + u.tail) == Some(u)
  {
    FirstOfBoundary(u.path, u.tail, PathEnd);
  }

  lemma {:induction false} SplitAfterSchemeOf(u: Url)
    requires UrlOk(u)
    ensures SplitAfterScheme(u.scheme, u.authority + (u.path + u.tail)) == Some(u)
  {
    var r := u.path + u.tail;
    assert r == "" || r[0] in AuthorityEnd by {
      if u.path != "" {
        assert r[0] == u.path[0];
      }
    }
    FirstOfBoundary(u.authority, r, AuthorityEnd);
    SplitAfterAuthorityOf(u);
  }

  /** Splitting a serialized URL gives its parts back. */
  lemma {:induction false} SplitSerialize(u: Url)
    requires UrlOk(u)
    ensures SplitUrl(Serialize(u)) == Some(u)
  {
    var after := u.authority + (u.path + u.tail);
    var s := Serialize(u);
    SchemeChars(u.scheme);
    FirstOfBoundary(u.scheme, "://" + after, {':'});
    assert s[|u.scheme|..] == "://" + after;
    assert s[|u.scheme| + 3..] == after;
    SplitAfterSchemeOf(u);
  }

  lemma {:induction false} AfterAuthorityParts(scheme: string, authority: string, rest: string)
    requires SplitAfterAuthority(scheme, authority, rest).Some?
    ensures var u := SplitAfterAuthority(scheme, authority, rest).value;
      u.scheme == scheme && u.authority == authority && u.path + u.tail == rest &&
      NoQueryOrFragment(u.path) && IsTail(u.tail) && AfterLast(authority, '@') != ""
  {
    FirstOfSpec(rest, PathEnd);
    var e := FirstOf(rest, PathEnd);
    assert rest[..e] + rest[e..] == rest;
  }

  lemma {:induction false} AfterSchemeParts(scheme: string, after: string)
    requires SplitAfterScheme(scheme, after).Some?
    ensures var u := SplitAfterScheme(scheme, after).value;
      u.scheme == scheme && u.authority + (u.path + u.tail) == after &&
      (forall i :: 0 <= i < |u.authority| ==> u.authority[i] !in AuthorityEnd) &&
      (u.path == "" || u.path[0] == '/') && NoQueryOrFragment(u.path) && IsTail(u.tail) &&
      AfterLast(u.authority, '@') != ""
  {
    FirstOfSpec(after, AuthorityEnd);
    var a := FirstOf(after, AuthorityEnd);
    var rest := after[a..];
    AfterAuthorityParts(scheme, after[..a], rest);
    var u := SplitAfterScheme(scheme, after).value;
    assert after[..a] + rest == after;
    if u.path != "" {
      assert u.path[0] == rest[0];
    }
  }

  lemma {:induction false} SplitUrlScheme(url: string)
    requires SplitUrl(url).Some?
    ensures var k := FirstOf(url, {':'});
      k + 3 <= |url| && IsSpecialScheme(url[..k]) && HasSlashes(url[k..]) &&
      SplitUrl(url) == SplitAfterScheme(url[..k], url[k + 3..])
  {
  }

  lemma {:induction false} SlashesSplit(url: string, k: nat)
    requires k <= |url| && HasSlashes(url[k..])
    ensures url == url[..k] + ("://" + url[k + 3..])
  {
    var r := url[k..];
    assert r == r[..3] + url[k + 3..];
    assert r[..3] == "://";
  }

  /** What splits is the serialization of well-formed parts. */
  lemma {:induction false} SerializeSplit(url: string)
    requires SplitUrl(url).Some?
    ensures UrlOk(SplitUrl(url).value) && Serialize(SplitUrl(url).value) == url
  {
    SplitUrlScheme(url);
    var k := FirstOf(url, {':'});
    var u := SplitUrl(url).value;
    SlashesSplit(url, k);
    AfterSchemeOk(url[..k], url[k + 3..], u);
    SerializeParts(url, url[..k], url[k + 3..], u);
  }

  lemma {:induction false} AfterSchemeOk(scheme: string, after: string, u: Url)
    requires IsSpecialScheme(scheme) && SplitAfterScheme(scheme, after) == Some(u)
    ensures UrlOk(u) && u.scheme == scheme && u.authority + (u.path + u.tail) == after
  {
    AfterSchemeParts(scheme, after);
  }

  lemma {:induction false} SerializeParts(url: string, scheme: string, after: string, u: Url)
    requires url == scheme + ("://" + after)
    requires u.scheme == scheme && u.authority + (u.path + u.tail) == after
    ensures Serialize(u) == url
  {
  }

  /** Appending a query or a fragment to a URL without them moves only the tail. */
  lemma {:induction false} SplitUrlAppend(base: string, t: string)
    requires SplitUrl(base).Some? && NoQueryOrFragment(base) && IsTail(t)
    ensures SplitUrl(base + t) == Some(SplitUrl(base).value.(tail := t))
  {
    var u := SplitUrl(base).value;
    SerializeSplit(base);
    TailEmpty(u, base);
    Retail(u.scheme, "://", u.authority, u.path, t);
    SplitSerialize(u.(tail := t));
  }

  /** A URL whose serialization has neither a query nor a fragment has an empty tail. */
  lemma {:induction false} TailEmpty(u: Url, base: string)
    requires Serialize(u) == base && NoQueryOrFragment(base) && IsTail(u.tail)
    ensures u.tail == ""
  {
    SuffixChars(u.scheme + ("://" + (u.authority + u.path)), u.tail, base);
  }

  lemma {:induction false} SuffixChars(a: string, t: string, s: string)
    requires s == a + t
    ensures forall i :: 0 <= i < |t| ==> s[|a| + i] == t[i]
  {
  }

  lemma {:induction false} Retail<T>(a: seq<T>, b: seq<T>, c: seq<T>, d: seq<T>, t: seq<T>)
    ensures a + (b + (c + (d + []))) + t == a + (b + (c + (d + t)))
  {
  }

  /** Two URLs that differ only in their query or fragment give the same key. */
  lemma {:induction false} QueryAndFragmentIgnored(base: string, t1: string, t2: string)
    requires SplitUrl(base).Some? && NoQueryOrFragment(base) && IsTail(t1) && IsTail(t2)
    ensures GetPageKey(base + t1) == GetPageKey(base + t2) == GetPageKey(base)
  {
    var u := SplitUrl(base).value;
    SplitUrlAppend(base, t1);
    SplitUrlAppend(base, t2);
    KeyOfSplit(base + t1, u.(tail := t1));
    KeyOfSplit(base + t2, u.(tail := t2));
    KeyOfSplit(base, u);
  }

  lemma {:induction false} KeyOfSplit(url: string, u: Url)
    requires SplitUrl(url) == Some(u)
    ensures GetPageKey(url) == Origin(u) + Pathname(u)
  {
  }

  /** A string without a `:` has no scheme and is its own key. */
  lemma {:induction false} NoSchemeUnchanged(url: string)
    requires forall i :: 0 <= i < |url| ==> url[i] != ':'
    ensures GetPageKey(url) == url
  {
    FirstOfAll(url, {':'});
  }

  lemma {:induction false} AfterLastNone(s: string, c: char)
    requires forall i :: 0 <= i < |s| ==> s[i] != c
    ensures AfterLast(s, c) == s
    decreases |s|
  {
    if s != [] {
      AfterLastNone(s[..|s| - 1], c);
      assert s[..|s| - 1] + [s[|s| - 1]] == s;
    }
  }

  /** The URL whose serialization is the key: origin and pathname, nothing after. */
  function KeyUrl(u: Url): Url {
    Url(u.scheme, AfterLast(u.authority, '@'), Pathname(u), "")
  }

  lemma {:induction false} KeyUrlOk(u: Url)
    requires UrlOk(u)
    ensures UrlOk(KeyUrl(u)) && Origin(KeyUrl(u)) == Origin(u) && Pathname(KeyUrl(u)) == Pathname(u)
    ensures Serialize(KeyUrl(u)) == Origin(u) + Pathname(u)
  {
    HostOk(u.authority);
    Regroup4(u.scheme, "://", AfterLast(u.authority, '@'), Pathname(u));
  }

  /** The host after the user information keeps the authority's characters and holds no `@`. */
  lemma {:induction false} HostOk(a: string)
    requires forall i :: 0 <= i < |a| ==> a[i] !in AuthorityEnd
    ensures var h := AfterLast(a, '@');
      (forall i :: 0 <= i < |h| ==> h[i] !in AuthorityEnd) && AfterLast(h, '@') == h
  {
    var h := AfterLast(a, '@');
    AfterLastSpec(a, '@');
    AfterLastNone(h, '@');
    forall i | 0 <= i < |h| ensures h[i] !in AuthorityEnd {
      assert h[i] == a[|a| - |h| + i];
    }
  }

  lemma {:induction false} Regroup4<T>(a: seq<T>, b: seq<T>, c: seq<T>, d: seq<T>)
    ensures a + (b + (c + (d + []))) == a + b + c + d
  {
  }

  /** A key has no query or fragment, and taking the key of a key changes nothing. */
  lemma {:induction false} GetPageKeyIdempotent(url: string)
    ensures SplitUrl(url).Some? ==> NoQueryOrFragment(GetPageKey(url))
    ensures GetPageKey(GetPageKey(url)) == GetPageKey(url)
  {
    if SplitUrl(url).Some? {
      var u := SplitUrl(url).value;
      SerializeSplit(url);
      KeyUrlOk(u);
      SplitSerialize(KeyUrl(u));
      SerializeNoQuery(KeyUrl(u));
    }
  }

  lemma {:induction false} SerializeNoQuery(u: Url)
    requires UrlOk(u) && u.tail == "" && (forall i :: 0 <= i < |u.authority| ==> u.authority[i] !in AuthorityEnd)
    ensures NoQueryOrFragment(Serialize(u))
  {
    var s := Serialize(u);
    SchemeChars(u.scheme);
    assert u.scheme[..] == u.scheme;
    forall i | 0 <= i < |s| ensures s[i] !in PathEnd {
      var n := |u.scheme|;
      if i < n {
        assert s[i] == u.scheme[i];
        assert u.scheme[i] in "httpswsftp";
      } else if i < n + 3 {
      } else if i < n + 3 + |u.authority| {
        assert s[i] == u.authority[i - n - 3];
      } else {
        assert s[i] == u.path[i - n - 3 - |u.authority|];
      }
    }
  }

  // ---------------------------------------------------------------------------
  // The store

  /** The object store: records by their `url` key. */
  class AnnotationStore {
    var records: map<string, PageAnnotations>

    /** The key path is `url`: every record sits under its own url. */
    ghost predicate Valid()
      reads this
    {
      forall k :: k in records ==> records[k].url == k
    }

    constructor ()
      ensures records == map[] && Valid()
    {
      records := map[];
    }

    /** `saveAnnotations`: a `put` under the page key, replacing any earlier record. */
    method SaveAnnotations(url: string, textAnnotations: seq<TextAnnotation>,
                           drawAnnotations: seq<DrawAnnotation>, now: int)
      requires Valid()
      modifies this
      ensures Valid()
      ensures records == old(records)[GetPageKey(url) := PageAnnotations(GetPageKey(url), textAnnotations, drawAnnotations, now)]
    {
      var pageKey := GetPageKey(url);
      var data := PageAnnotations(pageKey, textAnnotations, drawAnnotations, now);
      records := records[pageKey := data];
    }

    /** `loadAnnotations`: the record under the page key, or `None`. */
    method LoadAnnotations(url: string) returns (r: Option<PageAnnotations>)
      requires Valid()
      ensures r.Some? <==> GetPageKey(url) in records
      ensures r.Some? ==> r.value == records[GetPageKey(url)] && r.value.url == GetPageKey(url)
    {
      var pageKey := GetPageKey(url);
      if pageKey in records {
        r := Some(records[pageKey]);
      } else {
        r := None;
      }
    }

    /** `clearAnnotations`: a `delete` of the page key. */
    method ClearAnnotations(url: string)
      requires Valid()
      modifies this
      ensures Valid()
      ensures records == old(records) - {GetPageKey(url)}
    {
      records := records - {GetPageKey(url)};
    }
  }

  /** A save followed by a load of the same page returns exactly what was saved. */
  method SaveThenLoad(store: AnnotationStore, url: string, t: seq<TextAnnotation>, d: seq<DrawAnnotation>, now: int)
    returns (r: Option<PageAnnotations>)
    requires store.Valid()
    modifies store
    ensures r == Some(PageAnnotations(GetPageKey(url), t, d, now))
  {
    store.SaveAnnotations(url, t, d, now);
    r := store.LoadAnnotations(url);
  }

  /** A save or a clear for one page leaves the record of every other page as it was. */
  method OtherPagesUntouched(store: AnnotationStore, url: string, other: string, t: seq<TextAnnotation>,
                             d: seq<DrawAnnotation>, now: int, clear: bool)
    returns (before: Option<PageAnnotations>, after: Option<PageAnnotations>)
    requires store.Valid() && GetPageKey(url) != GetPageKey(other)
    modifies store
    ensures before == after
  {
    before := store.LoadAnnotations(other);
    if clear {
      store.ClearAnnotations(url);
    } else {
      store.SaveAnnotations(url, t, d, now);
    }
    after := store.LoadAnnotations(other);
  }

  /** After a clear, loading the page gives `None`; a later save wins over an earlier one. */
  method ClearThenLoad(store: AnnotationStore, url: string, t1: seq<TextAnnotation>, t2: seq<TextAnnotation>,
                       d: seq<DrawAnnotation>, now: int)
    returns (cleared: Option<PageAnnotations>, second: Option<PageAnnotations>)
    requires store.Valid()
    modifies store
    ensures cleared == None
    ensures second == Some(PageAnnotations(GetPageKey(url), t2, d, now + 1))
  {
    store.SaveAnnotations(url, t1, d, now);
    store.ClearAnnotations(url);
    cleared := store.LoadAnnotations(url);
    store.SaveAnnotations(url, t1, d, now);
    store.SaveAnnotations(url, t2, d, now + 1);
    second := store.LoadAnnotations(url);
  }
}
