/** Static export (src/bake_website.py): the pages to render, the link rewriting
    applied to each rendered page, and the loop that saves them. */
module BakeWebsite {
  import opened Wrappers
  import opened Strings
  import opened Elements

  // ---------------------------------------------------------------------------
  // One attribute: the regex candidate and the per-match rewrite
  // ---------------------------------------------------------------------------

  /** The attribute a match was found in. */
  datatype Attr = Href | Src

  /** The attribute's name as it appears in the page. */
  function AttrName(a: Attr): string
  {
    match a
    case Href => "href"
    case Src => "src"
  }

  /** The value group of the regex `(href|src)="([^.#?"][^:"<>.]*?)"`: a first
      character other than `. # ? "`, then none of `: " < > .`. */
  predicate IsLinkValue(v: string)
  {
    |v| > 0 && FirstValueChar(v[0]) && forall k | 1 <= k < |v| :: ValueChar(v[k])
  }

  /** `[^.#?"]` */
  predicate FirstValueChar(c: char)
  {
    c != '.' && c != '#' && c != '?' && c != '"'
  }

  /** `[^:"<>.]` */
  predicate ValueChar(c: char)
  {
    c != ':' && c != '"' && c != '<' && c != '>' && c != '.'
  }

  /** One regex match: the attribute and its value. */
  datatype Match = Match(attr: Attr, value: string)

  /** The whole matched text, `attr="value"` (group 1 of the regex). */
  function Full(m: Match): string
  {
    AttrName(m.attr) + "=\"" + m.value + "\""
  }

  /** Python's `s[:-1]`. */
  function DropLast(s: string): string
  {
    if |s| == 0 then s else s[..|s| - 1]
  }

  /** When the value is the root `/`, it becomes the home page
      (`processed_match.replace('="/', '="./index.html')`). */
  function HomeStep(m: Match, s: string): string
  {
    if m.value == "/" then ReplaceAll(s, "=\"/", "=\"./index.html") else s
  }

  /** Text without any `.` gets `.html` before its closing quote. */
  function ExtensionStep(s: string): string
  {
    if '.' !in s then DropLast(s) + ".html\"" else s
  }

  /** Every `="/` becomes `="./`. */
  function RootStep(s: string): string
  {
    if Contains(s, "=\"/") then ReplaceAll(s, "=\"/", "=\"./") else s
  }

  /** Unless the text holds `="#`, `="?` or `=".`, every `="` becomes `="./`. */
  function DotSlashStep(s: string): string
  {
    if !Contains(s, "=\"#") && !Contains(s, "=\"?") && !Contains(s, "=\".") then
      ReplaceAll(s, "=\"", "=\"./")
    else
      s
  }

  /** The four conditional rewrites `fix_relative_links` applies to
      `processed_match`, in the order it applies them. */
  datatype Rewrite = HomeRewrite | ExtensionRewrite | RootRewrite | DotSlashRewrite

  function Apply(r: Rewrite, m: Match, s: string): string
  {
    match r
    case HomeRewrite => HomeStep(m, s)
    case ExtensionRewrite => ExtensionStep(s)
    case RootRewrite => RootStep(s)
    case DotSlashRewrite => DotSlashStep(s)
  }

  /** `processed_match` rebound by each rewrite of `rs` in turn. */
  function ApplyRewrites(m: Match, s: string, rs: seq<Rewrite>): string
    decreases |rs|
  {
    if |rs| == 0 then s else ApplyRewrites(m, Apply(rs[0], m, s), rs[1..])
  }

  const Rewrites: seq<Rewrite> := [HomeRewrite, ExtensionRewrite, RootRewrite, DotSlashRewrite]

  /** The rewrite of one match: `processed_match` starts as the matched text and
      is rebound step after step. */
  function ProcessMatch(m: Match): string
  {
    ApplyRewrites(m, Full(m), Rewrites)
  }

  /** The rewrites spelled out one after the other. */
  lemma ProcessMatchSteps(m: Match)
    ensures ProcessMatch(m) == DotSlashStep(RootStep(ExtensionStep(HomeStep(m, Full(m)))))
  {
    var s1 := HomeStep(m, Full(m));
    var s2 := ExtensionStep(s1);
    var s3 := RootStep(s2);
    var s4 := DotSlashStep(s3);
    var rs := Rewrites;
    assert rs[1..] == [ExtensionRewrite, RootRewrite, DotSlashRewrite];
    assert rs[1..][1..] == [RootRewrite, DotSlashRewrite];
    assert rs[1..][1..][1..] == [DotSlashRewrite];
    assert rs[1..][1..][1..][1..] == [];
    assert ApplyRewrites(m, s4, []) == s4;
    assert ApplyRewrites(m, s3, [DotSlashRewrite]) == s4;
    assert ApplyRewrites(m, s2, [RootRewrite, DotSlashRewrite]) == s4;
    assert ApplyRewrites(m, s1, rs[1..]) == s4;
    assert ApplyRewrites(m, Full(m), rs) == s4;
  }

  /** What a link value becomes: the root is the home page `./index.html`;
      any other value loses a leading `/`, gains `./` in front and `.html` behind. */
  function RewriteValue(v: string): (r: string)
    requires IsLinkValue(v)
    ensures StartsWith(r, "./") && EndsWith(r, ".html")
    ensures !IsLinkValue(r)
  {
    if v == "/" then "./index.html"
    else if v[0] == '/' then "./" + v[1..] + ".html"
    else "./" + v + ".html"
  }

  /** No `="` pair inside `w`. */
  predicate NoOpenPair(w: string)
  {
    forall j | 0 <= j < |w| - 1 :: !(w[j] == '=' && w[j + 1] == '"')
  }

  /** In `name="w`, a pattern beginning with `="` can only occur right after
      the name, so `in` is decided at that one position. */
  lemma ContainsOnlyAfterName(name: string, w: string, p: string)
    requires name == "href" || name == "src"
    requires NoOpenPair(w)
    requires |p| >= 2 && p[0] == '=' && p[1] == '"'
    ensures forall i | 0 <= i < |name + "=\"" + w| && i != |name| :: !OccursAt(name + "=\"" + w, p, i)
    ensures Contains(name + "=\"" + w, p) <==> OccursAt(name + "=\"" + w, p, |name|)
  {
    var s := name + "=\"" + w;
    forall i | 0 <= i < |s| && i != |name| ensures !OccursAt(s, p, i) {
      if i + 1 < |s| {
        if i < |name| {
          assert s[i] == name[i];
        } else if i > |name| + 1 {
          assert s[i] == w[i - |name| - 2] && s[i + 1] == w[i - |name| - 1];
        }
      }
    }
  }

  /** The value is followed by `.html"` and holds no quote: no `="` pair. */
  lemma NoOpenPairHtml(u: string)
    requires '"' !in u
    ensures NoOpenPair(u + ".html\"")
  {
    var w := u + ".html\"";
    forall j | 0 <= j < |w| - 1 ensures !(w[j] == '=' && w[j + 1] == '"') {
      if j + 1 < |u| {
        assert w[j + 1] == u[j + 1];
      }
    }
  }

  lemma LinkValueHasNoQuoteOrDot(v: string)
    requires IsLinkValue(v)
    ensures '"' !in v && '.' !in v
  {
    forall k | 0 <= k < |v| ensures v[k] != '"' && v[k] != '.' {
      if k > 0 { assert ValueChar(v[k]); }
    }
  }

  lemma RootStepAfterName(n: string, w: string)
    requires n == "href" || n == "src"
    requires NoOpenPair(w) && |w| > 0
    ensures RootStep(n + "=\"" + w) ==
      if w[0] == '/' then n + "=\"" + ("./" + w[1..]) else n + "=\"" + w
  {
    if w[0] == '/' {
      var s := n + "=\"" + w;
      assert s[|n|..|n| + 3] == "=\"/";
      assert OccursAt(s, "=\"/", |n|);
      RootPairReplaced(n, w);
    } else {
      NoGuardAfterName(n, w, '/');
      assert "=\"" + ['/'] == "=\"/";
    }
  }

  /** The only `="/` of `name="/...` is the one after the name. */
  lemma RootPairReplaced(n: string, w: string)
    requires n == "href" || n == "src"
    requires NoOpenPair(w) && |w| > 0 && w[0] == '/'
    ensures ReplaceAll(n + "=\"" + w, "=\"/", "=\"./") == n + "=\"" + ("./" + w[1..])
  {
    var p, d, v := "=\"", "./", w[1..];
    var p3, q := p + "/", p + d;
    assert p3 == "=\"/" && q == "=\"./";
    assert w == "/" + v;
    ContainsOnlyAfterName(n, w, p3);
    NoOpenPairNoOccurrence(v, p3);
    calc {
      ReplaceAll(n + p + w, p3, q);
      { Assoc(p, "/", v); Assoc(n, p, w); }
      ReplaceAll(n + (p3 + v), p3, q);
      { Assoc(n, p, w); ReplaceSkip(n, p3 + v, p3, q); }
      n + ReplaceAll(p3 + v, p3, q);
      { ReplaceHit(v, p3, q); }
      n + (q + ReplaceAll(v, p3, q));
      { ReplaceNone(v, p3, q); }
      n + (q + v);
      { Assoc(p, d, v); Assoc(n, p, d + v); }
      n + p + (d + v);
    }
  }

  lemma DotSlashStepAfterName(n: string, w: string)
    requires n == "href" || n == "src"
    requires NoOpenPair(w) && |w| > 0
    ensures DotSlashStep(n + "=\"" + w) ==
      if w[0] in "#?." then n + "=\"" + w else n + "=\"" + ("./" + w)
  {
    if w[0] in "#?." {
      DotSlashKeeps(n, w);
    } else {
      DotSlashPrefixes(n, w);
    }
  }

  /** A value starting with `#`, `?` or `.` puts one of the three guards after the name. */
  lemma DotSlashKeeps(n: string, w: string)
    requires |w| > 0 && w[0] in "#?."
    ensures DotSlashStep(n + "=\"" + w) == n + "=\"" + w
  {
    var s := n + "=\"" + w;
    var p := "=\"" + [w[0]];
    assert s[|n|..|n| + 3] == p;
    assert OccursAt(s, p, |n|);
    assert p == "=\"#" || p == "=\"?" || p == "=\".";
  }

  /** Any other value gets `./` after the `="` that follows the name. */
  lemma DotSlashPrefixes(n: string, w: string)
    requires n == "href" || n == "src"
    requires NoOpenPair(w) && |w| > 0 && w[0] !in "#?."
    ensures DotSlashStep(n + "=\"" + w) == n + "=\"" + ("./" + w)
  {
    NoGuardAfterName(n, w, '#');
    NoGuardAfterName(n, w, '?');
    NoGuardAfterName(n, w, '.');
    assert "=\"" + ['#'] == "=\"#" && "=\"" + ['?'] == "=\"?" && "=\"" + ['.'] == "=\".";
    OpenPairReplaced(n, w);
  }

  /** `="g` does not occur in `name="w` when `w` does not start with `g`. */
  lemma NoGuardAfterName(n: string, w: string, g: char)
    requires n == "href" || n == "src"
    requires NoOpenPair(w) && |w| > 0 && w[0] != g
    ensures !Contains(n + "=\"" + w, "=\"" + [g])
  {
    var s := n + "=\"" + w;
    ContainsOnlyAfterName(n, w, "=\"" + [g]);
    assert s[|n|..|n| + 3][2] == w[0];
  }

  /** The only `="` of `name="w` is the one after the name. */
  lemma OpenPairReplaced(n: string, w: string)
    requires n == "href" || n == "src"
    requires NoOpenPair(w)
    ensures ReplaceAll(n + "=\"" + w, "=\"", "=\"./") == n + "=\"" + ("./" + w)
  {
    var p, d := "=\"", "./";
    var q := p + d;
    assert q == "=\"./";
    ContainsOnlyAfterName(n, w, p);
    NoOpenPairNoOccurrence(w, p);
    calc {
      ReplaceAll(n + p + w, p, q);
      { Assoc(n, p, w); }
      ReplaceAll(n + (p + w), p, q);
      { ReplaceSkip(n, p + w, p, q); }
      n + ReplaceAll(p + w, p, q);
      { ReplaceHit(w, p, q); }
      n + (q + ReplaceAll(w, p, q));
      { ReplaceNone(w, p, q); }
      n + (q + w);
      { Assoc(p, d, w); Assoc(n, p, d + w); }
      n + p + (d + w);
    }
  }

  /** No pattern starting with `="` occurs in a text without a `="` pair. */
  lemma NoOpenPairNoOccurrence(w: string, p: string)
    requires NoOpenPair(w) && |p| >= 2 && p[0] == '=' && p[1] == '"'
    ensures forall i :: 0 <= i < |w| ==> !OccursAt(w, p, i)
  {
    forall i | 0 <= i < |w| ensures !OccursAt(w, p, i) {
      if i + |p| <= |w| {
        assert w[i..i + |p|][0] == w[i] && w[i..i + |p|][1] == w[i + 1];
      }
    }
  }

  lemma HomeStepOnRoot(m: Match)
    requires m.value == "/"
    ensures HomeStep(m, Full(m)) == AttrName(m.attr) + "=\"" + "./index.html\""
  {
    var n := AttrName(m.attr);
    var p, w, e := "=\"", "/\"", "\"";
    var p3, q := p + "/", p + "./index.html";
    assert p3 == "=\"/" && q == "=\"./index.html" && w == "/" + e;
    assert Full(m) == n + p + w;
    assert NoOpenPair(w);
    ContainsOnlyAfterName(n, w, p3);
    calc {
      ReplaceAll(n + p + w, p3, q);
      { Assoc(p, "/", e); Assoc(n, p, w); }
      ReplaceAll(n + (p3 + e), p3, q);
      { Assoc(n, p, w); ReplaceSkip(n, p3 + e, p3, q); }
      n + ReplaceAll(p3 + e, p3, q);
      { ReplaceHit(e, p3, q); }
      n + (q + e);
      { Assoc(p, "./index.html", e); Assoc(n, p, "./index.html" + e); }
      n + p + ("./index.html" + e);
    }
    assert "./index.html" + e == "./index.html\"";
  }

  lemma ExtensionStepOnValue(m: Match)
    requires IsLinkValue(m.value) && m.value != "/"
    ensures HomeStep(m, Full(m)) == Full(m)
    ensures ExtensionStep(Full(m)) == AttrName(m.attr) + "=\"" + (m.value + ".html\"")
  {
    var n, v := AttrName(m.attr), m.value;
    var s0 := Full(m);
    LinkValueHasNoQuoteOrDot(v);
    assert s0 == n + "=\"" + v + "\"";
    assert '.' !in s0;
    assert DropLast(s0) == n + "=\"" + v;
  }

  /** Root value `/`. */
  lemma ProcessRoot(m: Match)
    requires m.value == "/"
    ensures ProcessMatch(m) == AttrName(m.attr) + "=\"" + RewriteValue(m.value) + "\""
  {
    ProcessMatchSteps(m);
    var n := AttrName(m.attr);
    var w := "./index.html\"";
    HomeStepOnRoot(m);
    var h := n + "=\"" + w;
    assert h[|n| + 2] == '.';
    RootValueForm();
    RootStepAfterName(n, w);
    DotSlashStepAfterName(n, w);
    assert ProcessMatch(m) == h;
  }

  /** The text after `="` once the home step has run on the root value. */
  lemma RootValueForm()
    ensures NoOpenPair("./index.html\"") && "./index.html\""[0] == '.'
    ensures RewriteValue("/") + "\"" == "./index.html\""
  {
    NoOpenPairHtml("./index");
    assert "./index" + ".html\"" == "./index.html\"";
  }

  /** A value starting with `/` (other than the root). */
  lemma ProcessAbsolute(m: Match)
    requires IsLinkValue(m.value) && m.value != "/" && m.value[0] == '/'
    ensures ProcessMatch(m) == AttrName(m.attr) + "=\"" + RewriteValue(m.value) + "\""
  {
    ProcessMatchSteps(m);
    var n, v := AttrName(m.attr), m.value;
    var w := v + ".html\"";
    ExtensionStepOnValue(m);
    LinkValueHasNoQuoteOrDot(v);
    NoOpenPairHtml(v);
    RootStepAfterName(n, w);
    var w2 := "./" + w[1..];
    AbsoluteValueForm(v);
    NoOpenPairHtml(RewriteValue(v)[..|RewriteValue(v)| - 5]);
    DotSlashStepAfterName(n, w2);
    assert n + "=\"" + RewriteValue(v) + "\"" == n + "=\"" + w2;
  }

  /** The text after `="` once the root step has run on an absolute value. */
  lemma AbsoluteValueForm(v: string)
    requires IsLinkValue(v) && v != "/" && v[0] == '/'
    ensures "./" + (v + ".html\"")[1..] == RewriteValue(v) + "\""
    ensures RewriteValue(v)[..|RewriteValue(v)| - 5] + ".html\"" == RewriteValue(v) + "\""
    ensures '"' !in RewriteValue(v)[..|RewriteValue(v)| - 5]
  {
    LinkValueHasNoQuoteOrDot(v);
    var r := RewriteValue(v);
    assert r == "./" + v[1..] + ".html";
    assert (v + ".html\"")[1..] == v[1..] + ".html\"";
    assert r[..|r| - 5] == "./" + v[1..];
  }

  /** A value starting with any other allowed character. */
  lemma ProcessRelative(m: Match)
    requires IsLinkValue(m.value) && m.value[0] != '/'
    ensures ProcessMatch(m) == AttrName(m.attr) + "=\"" + RewriteValue(m.value) + "\""
  {
    ProcessMatchSteps(m);
    var n, v := AttrName(m.attr), m.value;
    var w := v + ".html\"";
    ExtensionStepOnValue(m);
    LinkValueHasNoQuoteOrDot(v);
    NoOpenPairHtml(v);
    RootStepAfterName(n, w);
    DotSlashStepAfterName(n, w);
    RelativeValueForm(v);
    assert n + "=\"" + RewriteValue(v) + "\"" == n + "=\"" + ("./" + w);
  }

  lemma RelativeValueForm(v: string)
    requires IsLinkValue(v) && v[0] != '/'
    ensures "./" + (v + ".html\"") == RewriteValue(v) + "\""
    ensures (v + ".html\"")[0] !in "#?./"
  {
  }

  /** The step-by-step rewrite of a match amounts to rewriting its value. */
  lemma ProcessMatchRewritesValue(m: Match)
    requires IsLinkValue(m.value)
    ensures ProcessMatch(m) == AttrName(m.attr) + "=\"" + RewriteValue(m.value) + "\""
  {
    if m.value == "/" {
      ProcessRoot(m);
    } else if m.value[0] == '/' {
      ProcessAbsolute(m);
    } else {
      ProcessRelative(m);
    }
  }

  /** Worked case: the root link becomes the home page. */
  lemma RewriteRootExample()
    ensures RewriteValue("/") == "./index.html"
  {
  }

  /** Worked case: a root-relative page link. */
  lemma RewriteGalleryExample()
    ensures IsLinkValue("/gallery") && RewriteValue("/gallery") == "./gallery.html"
  {
    var g := "/gallery";
    assert forall k | 1 <= k < |g| :: ValueChar(g[k]);
    RewriteAbsoluteLiteral(g, "gallery", "./gallery.html");
  }

  /** Worked case: a nested root-relative link. */
  lemma RewriteNestedExample()
    ensures IsLinkValue("/portfolio/photo1")
    ensures RewriteValue("/portfolio/photo1") == "./portfolio/photo1.html"
  {
    var p := "/portfolio/photo1";
    assert forall k | 1 <= k < |p| :: ValueChar(p[k]);
    RewriteAbsoluteLiteral(p, "portfolio/photo1", "./portfolio/photo1.html");
  }

  /** A root-relative value `"/" + path` becomes `"./" + path + ".html"`. */
  lemma RewriteAbsoluteLiteral(v: string, path: string, r: string)
    requires IsLinkValue(v) && v == "/" + path && path != []
    requires r == "./" + path + ".html"
    ensures RewriteValue(v) == r
  {
    assert v[1..] == path;
  }

  /** Worked cases: values the regex never selects. */
  lemma NotLinkValueExamples()
    ensures !IsLinkValue("https://example.com") && !IsLinkValue("#section")
    ensures !IsLinkValue("./about") && !IsLinkValue("photo.jpg")
  {
    assert "https://example.com"[5] == ':';
    assert "photo.jpg"[5] == '.';
  }

  // ---------------------------------------------------------------------------
  // The document: finding the matches
  // ---------------------------------------------------------------------------

  /** The index of the first `"` at or after `start`, if any. */
  function NextQuote(s: string, start: nat): (r: Option<nat>)
    ensures r.Some? ==> start <= r.value < |s|
    decreases |s| - start
  {
    if start >= |s| then None
    else if s[start] == '"' then Some(start)
    else NextQuote(s, start + 1)
  }

  /** The quote found is the first one at or after `start`; none is found
      when there is none. */
  lemma {:induction false} NextQuoteSpec(s: string, start: nat)
    ensures var r := NextQuote(s, start);
      && (r.Some? ==> s[r.value] == '"' && forall k | start <= k < r.value :: s[k] != '"')
      && (r.None? ==> forall k | start <= k < |s| :: s[k] != '"')
    decreases |s| - start
  {
    if start < |s| && s[start] != '"' {
      NextQuoteSpec(s, start + 1);
    }
  }

  /** The value group and closing quote of a match whose value starts at `start`. */
  function ValueAt(content: string, attr: Attr, start: nat): Option<Match>
  {
    var q := NextQuote(content, start);
    if q.None? then None
    else if IsLinkValue(content[start..q.value]) then Some(Match(attr, content[start..q.value]))
    else None
  }

  /** The regex tried at position `i`. */
  function MatchAt(content: string, i: nat): Option<Match>
  {
    if OccursAt(content, "href=\"", i) then ValueAt(content, Href, i + 6)
    else if OccursAt(content, "src=\"", i) then ValueAt(content, Src, i + 5)
    else None
  }

  /** A match found at `i` is a link value and its text occurs at `i`. */
  lemma MatchAtSound(content: string, i: nat)
    ensures MatchAt(content, i).Some? ==>
      IsLinkValue(MatchAt(content, i).value.value) &&
      OccursAt(content, Full(MatchAt(content, i).value), i)
  {
    assert AttrName(Href) + "=\"" == "href=\"" && AttrName(Src) + "=\"" == "src=\"";
    if OccursAt(content, "href=\"", i) {
      ValueAtSound(content, Href, i);
    } else if OccursAt(content, "src=\"", i) {
      ValueAtSound(content, Src, i);
    }
  }

  /** After `attr="` at `i`, a value found is a link value and the whole
      attribute occurs at `i`. */
  lemma ValueAtSound(content: string, attr: Attr, i: nat)
    requires OccursAt(content, AttrName(attr) + "=\"", i)
    ensures var r := ValueAt(content, attr, i + |AttrName(attr)| + 2);
      r.Some? ==> r.value.attr == attr && IsLinkValue(r.value.value) && OccursAt(content, Full(r.value), i)
  {
    var n := AttrName(attr);
    var start := i + |n| + 2;
    NextQuoteSpec(content, start);
    var r := ValueAt(content, attr, start);
    if r.Some? {
      var q := NextQuote(content, start).value;
      var v := content[start..q];
      assert r.value == Match(attr, v);
      assert Full(r.value) == (n + "=\"") + v + "\"";
      assert content[q..q + 1] == "\"";
      assert content[i..q + 1] == content[i..start] + content[start..q] + content[q..q + 1];
    }
  }

  /** `re.findall` from position `i`: scanning left to right, a match is
      reported and the scan resumes after it. */
  function FindAll(content: string, i: nat): seq<Match>
    decreases |content| - i
  {
    if i >= |content| then []
    else
      var r := MatchAt(content, i);
      if r.Some? then [r.value] + FindAll(content, i + |Full(r.value)|)
      else FindAll(content, i + 1)
  }

  /** Every reported match is a link value. */
  lemma {:induction false} FindAllLinkValues(content: string, i: nat)
    ensures forall m | m in FindAll(content, i) :: IsLinkValue(m.value)
    decreases |content| - i
  {
    if i < |content| {
      var r := MatchAt(content, i);
      if r.Some? {
        MatchAtSound(content, i);
        FindAllHit(content, i, r.value);
        FindAllLinkValues(content, i + |Full(r.value)|);
      } else {
        FindAllMiss(content, i);
        FindAllLinkValues(content, i + 1);
      }
    }
  }

  /** `list(set(matches))` in a fixed order: each distinct match once, where it
      first occurs. */
  function Dedupe(ms: seq<Match>): (r: seq<Match>)
    ensures forall m :: m in r <==> m in ms
    ensures forall i, j | 0 <= i < j < |r| :: r[i] != r[j]
  {
    if |ms| == 0 then []
    else
      var init, last := ms[..|ms| - 1], ms[|ms| - 1];
      assert ms == init + [last];
      var d := Dedupe(init);
      if last in init then d else d + [last]
  }

  /** The matches substituted one after the other, each into the text the
      previous substitutions produced. */
  function ApplyAll(content: string, ms: seq<Match>): string
  {
    if |ms| == 0 then content
    else
      var last := ms[|ms| - 1];
      ReplaceAll(ApplyAll(content, ms[..|ms| - 1]), Full(last), ProcessMatch(last))
  }

  /** The intended `fix_relative_links`: every distinct match is rewritten
      everywhere it occurs. */
  function RewriteLinks(content: string): string
  {
    ApplyAll(content, Dedupe(FindAll(content, 0)))
  }

  // ---------------------------------------------------------------------------
  // The document: the loops
  // ---------------------------------------------------------------------------

  /** The exception `fix_relative_links` raises when nothing matched: the result
      variable was never assigned. */
  datatype FixError = UnboundLocalError

  /** What `fix_relative_links` returns as written: only the replacement of the
      match handled last survives. */
  function FixAsWritten(content: string, order: seq<Match>): Result<string, FixError>
  {
    if |order| == 0 then Err(UnboundLocalError)
    else
      var m := order[|order| - 1];
      Ok(ReplaceAll(content, Full(m), ProcessMatch(m)))
  }

  /** An order in which Python may walk `set(matches)`: each match once. */
  ghost predicate IsSetOrder(order: seq<Match>, matches: seq<Match>)
  {
    (forall m :: m in order <==> m in matches) &&
    (forall i, j | 0 <= i < j < |order| :: order[i] != order[j])
  }

  /** The set walked by `fix_relative_links` is empty exactly when nothing
      matched, so the unbound-local error comes from a page without links. */
  lemma SetOrderEmpty(content: string, order: seq<Match>)
    requires IsSetOrder(order, FindAll(content, 0))
    ensures |order| == 0 <==> FindAll(content, 0) == []
  {
    if |order| > 0 {
      assert order[0] in FindAll(content, 0);
    }
    if FindAll(content, 0) != [] {
      assert FindAll(content, 0)[0] in order;
    }
  }

  /** `fix_relative_links` as written. The set of matches is walked in an order
      Python does not fix; `order` is that order (IsSetOrder of the matches; the
      loop itself works for any order). Every iteration substitutes into the
      original `content`. */
  method FixRelativeLinksAsWritten(content: string, order: seq<Match>)
    returns (r: Result<string, FixError>)
    ensures r == FixAsWritten(content, order)
    ensures |order| == 0 <==> r.Err?
  {
    var fixed: Option<string> := None;
    ghost var last := Match(Href, "");
    var i := 0;
    while i < |order|
      invariant 0 <= i <= |order|
      invariant i == 0 ==> fixed == None
      invariant i > 0 ==> last == order[i - 1] && fixed == Some(ReplaceAll(content, Full(last), ProcessMatch(last)))
    {
      var m := order[i];
      var processed := ProcessMatch(m);
      fixed := Some(ReplaceAll(content, Full(m), processed));
      last := m;
      i := i + 1;
    }
    if fixed.None? {
      return Err(UnboundLocalError);
    }
    return Ok(fixed.value);
  }

  /** `fix_relative_links` corrected: every iteration substitutes into the text
      produced so far, and no match leaves the text unchanged. */
  method FixRelativeLinks(content: string) returns (r: string)
    ensures r == RewriteLinks(content)
  {
    var matches := Dedupe(FindAll(content, 0));
    r := content;
    var i := 0;
    while i < |matches|
      invariant 0 <= i <= |matches|
      invariant r == ApplyAll(content, matches[..i])
    {
      var m := matches[i];
      assert matches[..i + 1][..i] == matches[..i];
      r := ReplaceAll(r, Full(m), ProcessMatch(m));
      i := i + 1;
    }
    assert matches[..|matches|] == matches;
  }

  // ---------------------------------------------------------------------------
  // The document: properties
  // ---------------------------------------------------------------------------

  lemma {:induction false} NextQuoteIs(s: string, start: nat, q: nat)
    requires start <= q < |s| && s[q] == '"'
    requires forall k | start <= k < q :: s[k] != '"'
    ensures NextQuote(s, start) == Some(q)
    decreases q - start
  {
    if start < q {
      NextQuoteIs(s, start + 1, q);
    }
  }

  lemma {:induction false} NextQuoteNone(s: string, start: nat)
    requires forall k | start <= k < |s| :: s[k] != '"'
    ensures NextQuote(s, start) == None
    decreases |s| - start
  {
    if start < |s| {
      NextQuoteNone(s, start + 1);
    }
  }

  /** The scan for a quote does not look to its left. */
  lemma NextQuoteShift(a: string, b: string, start: nat)
    ensures NextQuote(a + b, |a| + start) ==
      match NextQuote(b, start)
      case None => None
      case Some(q) => Some(|a| + q)
  {
    var s := a + b;
    NextQuoteSpec(b, start);
    match NextQuote(b, start)
    case None =>
      forall k | |a| + start <= k < |s| ensures s[k] != '"' {
        assert s[k] == b[k - |a|];
      }
      NextQuoteNone(s, |a| + start);
    case Some(q) =>
      forall k | |a| + start <= k < |a| + q ensures s[k] != '"' {
        assert s[k] == b[k - |a|];
      }
      NextQuoteIs(s, |a| + start, |a| + q);
  }

  lemma ValueAtShift(a: string, b: string, attr: Attr, start: nat)
    ensures ValueAt(a + b, attr, |a| + start) == ValueAt(b, attr, start)
  {
    NextQuoteShift(a, b, start);
    var q := NextQuote(b, start);
    if q.Some? {
      assert (a + b)[|a| + start..|a| + q.value] == b[start..q.value];
    }
  }

  /** The regex tried at a position does not look to its left. */
  lemma MatchAtShift(a: string, b: string, j: nat)
    ensures MatchAt(a + b, |a| + j) == MatchAt(b, j)
  {
    OccursAtShift(a, b, "href=\"", j);
    OccursAtShift(a, b, "src=\"", j);
    ValueAtShift(a, b, Href, j + 6);
    ValueAtShift(a, b, Src, j + 5);
  }

  lemma FindAllShiftMiss(a: string, b: string, j: nat)
    requires j < |b| && MatchAt(b, j).None?
    requires FindAll(a + b, |a| + j + 1) == FindAll(b, j + 1)
    ensures FindAll(a + b, |a| + j) == FindAll(b, j)
  {
    MatchAtShift(a, b, j);
  }

  lemma FindAllShiftHit(a: string, b: string, j: nat, m: Match)
    requires j < |b| && MatchAt(b, j) == Some(m)
    requires FindAll(a + b, |a| + j + |Full(m)|) == FindAll(b, j + |Full(m)|)
    ensures FindAll(a + b, |a| + j) == FindAll(b, j)
  {
    MatchAtShift(a, b, j);
    FindAllHit(a + b, |a| + j, m);
    FindAllHit(b, j, m);
  }

  /** A match at `i` is reported, and the scan resumes after it. */
  lemma FindAllHit(s: string, i: nat, m: Match)
    requires i < |s| && MatchAt(s, i) == Some(m)
    ensures FindAll(s, i) == [m] + FindAll(s, i + |Full(m)|)
  {
  }

  /** No match at `i`: the scan moves on to the next position. */
  lemma FindAllMiss(s: string, i: nat)
    requires i < |s| && MatchAt(s, i).None?
    ensures FindAll(s, i) == FindAll(s, i + 1)
  {
  }

  /** Where the scan resumes after trying position `i`. */
  function ResumeAt(content: string, i: nat): (k: nat)
    ensures k > i
  {
    var r := MatchAt(content, i);
    if r.Some? then i + |Full(r.value)| else i + 1
  }

  /** One step of the scan does not look to its left. */
  lemma FindAllShiftStep(a: string, b: string, j: nat)
    requires j < |b|
    requires FindAll(a + b, |a| + ResumeAt(b, j)) == FindAll(b, ResumeAt(b, j))
    ensures FindAll(a + b, |a| + j) == FindAll(b, j)
  {
    var r := MatchAt(b, j);
    if r.Some? {
      FindAllShiftHit(a, b, j, r.value);
    } else {
      FindAllShiftMiss(a, b, j);
    }
  }

  /** The scan does not look to its left. */
  lemma {:induction false} FindAllShift(a: string, b: string, j: nat)
    ensures FindAll(a + b, |a| + j) == FindAll(b, j)
    decreases |b| - j
  {
    if j < |b| {
      FindAllShift(a, b, ResumeAt(b, j));
      FindAllShiftStep(a, b, j);
    }
  }

  /** A text that begins with a matching attribute yields that match first. */
  lemma MatchAtFull(m: Match, rest: string)
    requires IsLinkValue(m.value)
    ensures MatchAt(Full(m) + rest, 0) == Some(m)
  {
    var s := Full(m) + rest;
    var n, v := AttrName(m.attr), m.value;
    LinkValueHasNoQuoteOrDot(v);
    assert s == n + "=\"" + v + "\"" + rest;
    var q := |n| + 2 + |v|;
    assert s[q] == '"';
    forall k | |n| + 2 <= k < q ensures s[k] != '"' {
      assert s[k] == v[k - |n| - 2];
    }
    NextQuoteIs(s, |n| + 2, q);
    assert s[|n| + 2..q] == v;
    if m.attr == Href {
      assert s[..6] == "href=\"";
    } else {
      assert s[0] == 's' && "href=\""[0] == 'h';
      assert s[..5] == "src=\"";
    }
  }

  lemma FindAllFull(m: Match, rest: string)
    requires IsLinkValue(m.value)
    ensures FindAll(Full(m) + rest, 0) == [m] + FindAll(rest, 0)
  {
    MatchAtFull(m, rest);
    FindAllShift(Full(m), rest, 0);
  }

  lemma {:induction false} FindAllNone(s: string, i: nat)
    requires forall j: nat :: MatchAt(s, j).None?
    ensures FindAll(s, i) == []
    decreases |s| - i
  {
    if i < |s| {
      FindAllNone(s, i + 1);
    }
  }

  /** No match starts anywhere in `name="w` when `w` starts with `.` and holds
      no `="` pair. */
  lemma NoMatchAfterDot(n: string, w: string, j: nat)
    requires n == "href" || n == "src"
    requires NoOpenPair(w) && |w| > 0 && w[0] == '.'
    ensures MatchAt(n + "=\"" + w, j).None?
  {
    var s := n + "=\"" + w;
    ContainsOnlyAfterName(n, w, "=\"");
    assert s[|n| + 2] == '.';
    assert s[0] == n[0] && s[1] == n[1];
    if OccursAt(s, "href=\"", j) {
      OccursAtSuffix(s, "href=\"", j, 4);
      assert "href=\""[4..] == "=\"";
      assert j == 0 && n == "href";
      var quote := NextQuote(s, 6);
      if quote.Some? {
        assert s[6..quote.value][0] == '.';
      }
    } else if OccursAt(s, "src=\"", j) {
      OccursAtSuffix(s, "src=\"", j, 3);
      OccursAtSuffix(s, "src=\"", j, 0);
      assert "src=\""[3..] == "=\"";
      assert j == 0 && n == "src";
      var quote := NextQuote(s, 5);
      if quote.Some? {
        assert s[5..quote.value][0] == '.';
      }
    }
  }

  /** A rewritten attribute is never matched again. */
  lemma RewrittenHasNoMatch(m: Match)
    requires IsLinkValue(m.value)
    ensures FindAll(ProcessMatch(m), 0) == []
  {
    ProcessMatchRewritesValue(m);
    var w := RewriteValue(m.value) + "\"";
    RewrittenValueTail(m.value);
    Assoc(AttrName(m.attr) + "=\"", RewriteValue(m.value), "\"");
    NoMatchAfterName(AttrName(m.attr), w);
  }

  /** The rewritten value and its closing quote hold no `="` and start with `.`. */
  lemma RewrittenValueTail(v: string)
    requires IsLinkValue(v)
    ensures NoOpenPair(RewriteValue(v) + "\"") && (RewriteValue(v) + "\"")[0] == '.'
  {
    var r := RewriteValue(v);
    var u := r[..|r| - 5];
    assert u + ".html" == r;
    LinkValueHasNoQuoteOrDot(v);
    assert '"' !in u;
    assert u + ".html\"" == r + "\"";
    NoOpenPairHtml(u);
  }

  /** An attribute whose value starts with `.` is not matched anywhere. */
  lemma NoMatchAfterName(n: string, w: string)
    requires n == "href" || n == "src"
    requires NoOpenPair(w) && |w| > 0 && w[0] == '.'
    ensures FindAll(n + "=\"" + w, 0) == []
  {
    var s := n + "=\"" + w;
    forall j: nat ensures MatchAt(s, j).None? {
      NoMatchAfterDot(n, w, j);
    }
    FindAllNone(s, 0);
  }

  /** A document without matches is left as it is. */
  lemma NoMatchUnchanged(content: string)
    requires FindAll(content, 0) == []
    ensures RewriteLinks(content) == content
  {
  }

  /** A document made of one matching attribute is rewritten to its processed form. */
  lemma RewriteSingleAttribute(m: Match)
    requires IsLinkValue(m.value)
    ensures RewriteLinks(Full(m)) == ProcessMatch(m)
  {
    FindAllFull(m, []);
    assert Full(m) + [] == Full(m);
    assert FindAll([], 0) == [];
    assert FindAll(Full(m), 0) == [m];
    assert [m][..0] == [];
    assert Dedupe([m]) == [m];
    assert ApplyAll(Full(m), []) == Full(m);
    ReplaceHit([], Full(m), ProcessMatch(m));
    assert ReplaceAll(Full(m), Full(m), ProcessMatch(m)) == ProcessMatch(m);
  }

  /** Rewriting a one-attribute document twice changes nothing more. */
  lemma RewriteIdempotentOnAttribute(m: Match)
    requires IsLinkValue(m.value)
    ensures RewriteLinks(RewriteLinks(Full(m))) == RewriteLinks(Full(m))
  {
    RewriteSingleAttribute(m);
    RewrittenHasNoMatch(m);
  }

  // ---------------------------------------------------------------------------
  // `fix_relative_links` as written against the corrected loop
  // ---------------------------------------------------------------------------

  lemma RewriteValueNoEquals(v: string)
    requires IsLinkValue(v) && '=' !in v
    ensures '=' !in RewriteValue(v)
  {
    if v != "/" && v[0] == '/' {
      assert forall c | c in v[1..] :: c in v;
    }
  }

  /** A `src="` pattern cannot start inside an `href="` attribute whose tail has
      no `=`, when what follows begins with three characters other than `=`. */
  lemma NoSrcBefore(u: string, b: string, p: string)
    requires '=' !in u
    requires |b| >= 3 && b[0] != '=' && b[1] != '=' && b[2] != '='
    requires |p| >= 4 && p[..4] == "src="
    ensures forall i | 0 <= i < |"href=\"" + u| :: !OccursAt("href=\"" + u + b, p, i)
  {
    var a := "href=\"" + u;
    var s := a + b;
    assert p[0] == 's' && p[3] == '=';
    forall i | 0 <= i < |a| ensures !OccursAt(s, p, i) {
      if i + |p| <= |s| {
        var w := s[i..i + |p|];
        assert w[3] == s[i + 3];
        if i == 1 {
          assert w[0] == 'r';
        } else if i + 3 < 6 {
          assert s[i + 3] == a[i + 3] == "href=\""[i + 3];
        } else if i + 3 < |a| {
          assert s[i + 3] == a[i + 3] == u[i - 3];
        } else {
          assert s[i + 3] == b[i + 3 - |a|];
        }
      }
    }
  }

  /** An `href="` pattern never occurs inside a `src="` attribute whose tail has
      no `=`. */
  lemma NoHrefIn(u: string, p: string)
    requires '=' !in u
    requires |p| >= 5 && p[..5] == "href="
    ensures forall i | 0 <= i < |"src=\"" + u| :: !OccursAt("src=\"" + u, p, i)
  {
    var t := "src=\"" + u;
    assert p[4] == '=';
    forall i | 0 <= i < |t| ensures !OccursAt(t, p, i) {
      if i + |p| <= |t| {
        var w := t[i..i + |p|];
        if i == 0 {
          assert w[4] == '"';
        } else {
          assert w[4] == u[i - 1];
        }
      }
    }
  }

  /** A document holding an `href` link followed by a `src` link yields both
      matches, in document order. */
  lemma TwoLinksFound(v1: string, v2: string)
    requires IsLinkValue(v1) && IsLinkValue(v2)
    ensures FindAll(Full(Match(Href, v1)) + Full(Match(Src, v2)), 0) == [Match(Href, v1), Match(Src, v2)]
  {
    var m1, m2 := Match(Href, v1), Match(Src, v2);
    FindAllFull(m1, Full(m2));
    FindAllFull(m2, []);
    assert Full(m2) + [] == Full(m2);
  }

  /** As written, `fix_relative_links` returns that document with only the link
      it handled last rewritten, whichever order the set yields. */
  lemma FixAsWrittenKeepsOnlyLast(v1: string, v2: string)
    requires IsLinkValue(v1) && IsLinkValue(v2) && '=' !in v1 && '=' !in v2
    ensures FixAsWritten(Full(Match(Href, v1)) + Full(Match(Src, v2)), [Match(Href, v1), Match(Src, v2)])
         == Ok(Full(Match(Href, v1)) + ProcessMatch(Match(Src, v2)))
    ensures FixAsWritten(Full(Match(Href, v1)) + Full(Match(Src, v2)), [Match(Src, v2), Match(Href, v1)])
         == Ok(ProcessMatch(Match(Href, v1)) + Full(Match(Src, v2)))
  {
    FixAsWrittenSrcLast(v1, v2);
    FixAsWrittenHrefLast(v1, v2);
  }

  /** The order that handles the `src` link last. */
  lemma FixAsWrittenSrcLast(v1: string, v2: string)
    requires '=' !in v1
    ensures FixAsWritten(Full(Match(Href, v1)) + Full(Match(Src, v2)), [Match(Href, v1), Match(Src, v2)])
         == Ok(Full(Match(Href, v1)) + ProcessMatch(Match(Src, v2)))
  {
    var m1, m2 := Match(Href, v1), Match(Src, v2);
    var u, p2 := v1 + "\"", ProcessMatch(m2);
    assert Full(m1) == "href=\"" + u;
    SrcReplacedAfter(u, v2, p2);
    assert FixAsWritten(Full(m1) + Full(m2), [m1, m2]) == Ok(ReplaceAll(Full(m1) + Full(m2), Full(m2), p2));
  }

  /** The order that handles the `href` link last. */
  lemma FixAsWrittenHrefLast(v1: string, v2: string)
    requires '=' !in v2
    ensures FixAsWritten(Full(Match(Href, v1)) + Full(Match(Src, v2)), [Match(Src, v2), Match(Href, v1)])
         == Ok(ProcessMatch(Match(Href, v1)) + Full(Match(Src, v2)))
  {
    HrefReplacedBefore(v1, v2, ProcessMatch(Match(Href, v1)));
  }

  /** Replacing the `src` link of `href="u` followed by that link. */
  lemma SrcReplacedAfter(u: string, v2: string, q: string)
    requires '=' !in u
    ensures ReplaceAll("href=\"" + u + Full(Match(Src, v2)), Full(Match(Src, v2)), q) == "href=\"" + u + q
  {
    var f2 := Full(Match(Src, v2));
    ReplaceHit([], f2, q);
    assert f2 + [] == f2 && q + [] == q;
    assert f2 == "src=\"" + (v2 + "\"");
    NoSrcBefore(u, f2, f2);
    ReplaceSkip("href=\"" + u, f2, f2, q);
  }

  /** Replacing the `href` link of the two-link document. */
  lemma HrefReplacedBefore(v1: string, v2: string, q: string)
    requires '=' !in v2
    ensures ReplaceAll(Full(Match(Href, v1)) + Full(Match(Src, v2)), Full(Match(Href, v1)), q)
         == q + Full(Match(Src, v2))
  {
    var f1, f2 := Full(Match(Href, v1)), Full(Match(Src, v2));
    ReplaceHit(f2, f1, q);
    assert f2 == "src=\"" + (v2 + "\"");
    NoHrefIn(v2 + "\"", f1);
    ReplaceNone(f2, f1, q);
  }

  lemma DedupeTwo(m1: Match, m2: Match)
    requires m1 != m2
    ensures Dedupe([m1, m2]) == [m1, m2]
  {
    assert [m1, m2][..1] == [m1] && [m1][..0] == [];
    assert Dedupe([m1]) == [m1];
    assert m2 !in [m1];
  }

  lemma ApplyAllTwo(content: string, m1: Match, m2: Match)
    ensures ApplyAll(content, [m1, m2])
         == ReplaceAll(ReplaceAll(content, Full(m1), ProcessMatch(m1)), Full(m2), ProcessMatch(m2))
  {
    assert [m1, m2][..1] == [m1] && [m1][..0] == [];
    assert ApplyAll(content, [m1]) == ReplaceAll(content, Full(m1), ProcessMatch(m1));
  }

  lemma HrefProcessedForm(v: string)
    requires IsLinkValue(v) && '=' !in v
    ensures ProcessMatch(Match(Href, v)) == "href=\"" + (RewriteValue(v) + "\"")
    ensures '=' !in RewriteValue(v)
  {
    ProcessMatchRewritesValue(Match(Href, v));
    RewriteValueNoEquals(v);
  }

  /** The corrected loop rewrites both links of the two-link document. */
  lemma RewriteLinksRewritesBoth(v1: string, v2: string)
    requires IsLinkValue(v1) && IsLinkValue(v2) && '=' !in v1 && '=' !in v2
    ensures RewriteLinks(Full(Match(Href, v1)) + Full(Match(Src, v2)))
         == ProcessMatch(Match(Href, v1)) + ProcessMatch(Match(Src, v2))
  {
    var m1, m2 := Match(Href, v1), Match(Src, v2);
    var content := Full(m1) + Full(m2);
    TwoLinksFound(v1, v2);
    DedupeTwo(m1, m2);
    ApplyAllTwo(content, m1, m2);
    var p1, p2 := ProcessMatch(m1), ProcessMatch(m2);
    HrefReplacedBefore(v1, v2, p1);
    var c1 := ReplaceAll(content, Full(m1), p1);
    assert c1 == p1 + Full(m2);
    HrefProcessedForm(v1);
    var u := RewriteValue(v1) + "\"";
    SrcReplacedAfter(u, v2, p2);
    assert p1 == "href=\"" + u;
  }

  /** The two results differ from the corrected one: a link is left unrewritten. */
  lemma FixAsWrittenDiffers(v1: string, v2: string)
    requires IsLinkValue(v1) && IsLinkValue(v2) && '=' !in v1 && '=' !in v2
    ensures Full(Match(Href, v1)) + ProcessMatch(Match(Src, v2))
         != ProcessMatch(Match(Href, v1)) + ProcessMatch(Match(Src, v2))
    ensures ProcessMatch(Match(Href, v1)) + Full(Match(Src, v2))
         != ProcessMatch(Match(Href, v1)) + ProcessMatch(Match(Src, v2))
  {
    var m1, m2 := Match(Href, v1), Match(Src, v2);
    ProcessMatchRewritesValue(m1);
    ProcessMatchRewritesValue(m2);
    var p1, p2 := ProcessMatch(m1), ProcessMatch(m2);
    assert (Full(m1) + p2)[6] == v1[0] != '.' == (p1 + p2)[6];
    var a := p1 + Full(m2);
    var b := p1 + p2;
    assert a[|p1| + 5] == v2[0] != '.' == b[|p1| + 5];
  }

  /** With no match at all the result variable is never bound. */
  lemma FixAsWrittenOnNoMatch(content: string)
    requires FindAll(content, 0) == []
    ensures FixAsWritten(content, []) == Err(UnboundLocalError)
    ensures RewriteLinks(content) == content
  {
  }

  // ---------------------------------------------------------------------------
  // The pages `bake_site` renders and saves
  // ---------------------------------------------------------------------------

  /** `name.split(".")[0]`: the text before the first `.`. */
  function Stem(name: string): (r: string)
    ensures StartsWith(name, r) && '.' !in r
    ensures |r| < |name| ==> name[|r|] == '.'
  {
    if |name| == 0 || name[0] == '.' then []
    else [name[0]] + Stem(name[1..])
  }

  /** A page of the site: the route it is rendered from and the file it is
      saved to. */
  datatype Page = Page(route: string, file: string)

  /** The page of a custom `.md` file: rendered from `/<stem>`, saved as `<stem>.html`. */
  function CustomPage(f: string): Page
  {
    var stem := Stem(f);
    Page("/" + stem, stem + ".html")
  }

  /** The pages of the custom-pages folder, one per `.md` file, in listing order. */
  function CustomPages(files: seq<string>): seq<Page>
  {
    if |files| == 0 then []
    else
      var rest := CustomPages(files[1..]);
      if EndsWith(files[0], ".md") then [CustomPage(files[0])] + rest else rest
  }

  /** The page of an element: rendered from `portfolio/<id>`, saved as
      `portfolio/<id>.html`. */
  function ElementPage(e: Element): Page
  {
    var id := e.Identifier();
    Page("portfolio/" + id, "portfolio/" + id + ".html")
  }

  /** The page of each portfolio element, in index order. */
  function ElementPages(elements: seq<Element>): (ps: seq<Page>)
    ensures |ps| == |elements|
    ensures forall k | 0 <= k < |elements| :: ps[k] == ElementPage(elements[k])
  {
    if |elements| == 0 then []
    else [ElementPage(elements[0])] + ElementPages(elements[1..])
  }

  /** Every page `bake_site` saves, in the order it saves them. */
  function Pages(customFiles: seq<string>, elements: seq<Element>): seq<Page>
  {
    [Page("/", "index.html"), Page("/gallery", "gallery.html")]
      + CustomPages(customFiles) + ElementPages(elements)
  }

  function MarkdownFiles(files: seq<string>): (md: seq<string>)
    ensures forall f :: f in md <==> f in files && EndsWith(f, ".md")
  {
    if |files| == 0 then []
    else
      var rest := MarkdownFiles(files[1..]);
      assert forall f :: f in files <==> f == files[0] || f in files[1..];
      if EndsWith(files[0], ".md") then [files[0]] + rest else rest
  }

  lemma {:induction false} CustomPagesCount(files: seq<string>)
    ensures |CustomPages(files)| == |MarkdownFiles(files)|
  {
    if |files| > 0 {
      CustomPagesCount(files[1..]);
    }
  }

  /** Custom pages are exactly the `.md` files, each saved under its stem. */
  lemma {:induction false} CustomPagesAreMarkdown(files: seq<string>)
    ensures |CustomPages(files)| == |MarkdownFiles(files)|
    ensures forall k | 0 <= k < |MarkdownFiles(files)| ::
      CustomPages(files)[k] == CustomPage(MarkdownFiles(files)[k])
  {
    if |files| > 0 {
      CustomPagesAreMarkdown(files[1..]);
    }
  }

  /** Home and gallery first, then one page per `.md` file, then one page per
      element. */
  lemma PagesLayout(customFiles: seq<string>, elements: seq<Element>)
    ensures var ps := Pages(customFiles, elements);
      var md := MarkdownFiles(customFiles);
      && |ps| == 2 + |md| + |elements|
      && ps[0] == Page("/", "index.html") && ps[1] == Page("/gallery", "gallery.html")
      && (forall k | 0 <= k < |md| :: ps[2 + k] == CustomPage(md[k]))
      && (forall k | 0 <= k < |elements| :: ps[2 + |md| + k] == ElementPage(elements[k]))
  {
    PagesHead(customFiles, elements);
    CustomPagesLayout(customFiles, elements);
    ElementPagesLayout(customFiles, elements);
  }

  lemma CustomPagesLayout(customFiles: seq<string>, elements: seq<Element>)
    ensures forall k | 0 <= k < |MarkdownFiles(customFiles)| ::
      2 + k < |Pages(customFiles, elements)| &&
      Pages(customFiles, elements)[2 + k] == CustomPage(MarkdownFiles(customFiles)[k])
  {
    PagesHead(customFiles, elements);
    forall k | 0 <= k < |MarkdownFiles(customFiles)|
      ensures Pages(customFiles, elements)[2 + k] == CustomPage(MarkdownFiles(customFiles)[k])
    {
      CustomPageAt(customFiles, elements, k);
    }
  }

  lemma ElementPagesLayout(customFiles: seq<string>, elements: seq<Element>)
    ensures forall k | 0 <= k < |elements| ::
      2 + |MarkdownFiles(customFiles)| + k < |Pages(customFiles, elements)| &&
      Pages(customFiles, elements)[2 + |MarkdownFiles(customFiles)| + k] == ElementPage(elements[k])
  {
    PagesHead(customFiles, elements);
    forall k | 0 <= k < |elements|
      ensures Pages(customFiles, elements)[2 + |MarkdownFiles(customFiles)| + k] == ElementPage(elements[k])
    {
      ElementPageAt(customFiles, elements, k);
    }
  }

  /** The custom pages follow home and gallery. */
  lemma CustomPartAt(customFiles: seq<string>, elements: seq<Element>, k: nat)
    requires k < |CustomPages(customFiles)|
    ensures Pages(customFiles, elements)[2 + k] == CustomPages(customFiles)[k]
  {
  }

  /** Every saved file name ends in `.html`. */
  lemma PagesAreHtml(customFiles: seq<string>, elements: seq<Element>)
    ensures forall p | p in Pages(customFiles, elements) :: EndsWith(p.file, ".html")
  {
    var c := CustomPages(customFiles);
    CustomPagesAreMarkdown(customFiles);
    forall p | p in Pages(customFiles, elements) ensures EndsWith(p.file, ".html") {
      if p in c {
        var k :| 0 <= k < |c| && c[k] == p;
      } else if p in ElementPages(elements) {
        var k :| 0 <= k < |elements| && ElementPages(elements)[k] == p;
      }
    }
  }

  /** A link to the page's route, when it is a rewrite candidate, is rewritten
      to the file the page is saved to. */
  ghost predicate RouteResolves(p: Page)
  {
    IsLinkValue(p.route) && p.file != ".html" ==> RewriteValue(p.route) == "./" + p.file
  }

  lemma CustomRouteResolves(f: string)
    ensures RouteResolves(CustomPage(f))
  {
    var stem := Stem(f);
    if stem != [] {
      assert ("/" + stem)[1..] == stem;
    }
  }

  lemma ElementRouteResolves(e: Element)
    ensures RouteResolves(ElementPage(e))
  {
    var id := e.Identifier();
    assert ("portfolio/" + id)[0] == 'p';
  }

  lemma CustomPageAt(customFiles: seq<string>, elements: seq<Element>, i: nat)
    requires i < |MarkdownFiles(customFiles)|
    ensures |Pages(customFiles, elements)| == 2 + |MarkdownFiles(customFiles)| + |elements|
    ensures Pages(customFiles, elements)[2 + i] == CustomPage(MarkdownFiles(customFiles)[i])
  {
    PagesHead(customFiles, elements);
    CustomPagesAreMarkdown(customFiles);
    CustomPartAt(customFiles, elements, i);
  }

  lemma ElementPageAt(customFiles: seq<string>, elements: seq<Element>, j: nat)
    requires j < |elements|
    ensures |Pages(customFiles, elements)| == 2 + |MarkdownFiles(customFiles)| + |elements|
    ensures Pages(customFiles, elements)[2 + |MarkdownFiles(customFiles)| + j] == ElementPage(elements[j])
  {
    CustomPagesCount(customFiles);
    var c := CustomPages(customFiles);
    assert Pages(customFiles, elements)[2 + |c| + j] == ElementPages(elements)[j];
  }

  lemma RouteLinkResolvesAt(customFiles: seq<string>, elements: seq<Element>, k: nat)
    requires k < |Pages(customFiles, elements)|
    ensures RouteResolves(Pages(customFiles, elements)[k])
  {
    var c := |MarkdownFiles(customFiles)|;
    PagesHead(customFiles, elements);
    if k == 0 {
    } else if k == 1 {
      assert "/gallery"[1..] == "gallery";
    } else if k < 2 + c {
      CustomPageAt(customFiles, elements, k - 2);
      CustomRouteResolves(MarkdownFiles(customFiles)[k - 2]);
    } else {
      ElementPageAt(customFiles, elements, k - 2 - c);
      ElementRouteResolves(elements[k - 2 - c]);
    }
  }

  /** A link to a page's route, rewritten for the static site, points at the
      file that page is saved to, whenever the route is a rewrite candidate.
      (A custom page with an empty stem, such as `.md`, is rendered from `/` but
      saved as `.html`.) */
  lemma RouteLinksResolve(customFiles: seq<string>, elements: seq<Element>)
    ensures forall p | p in Pages(customFiles, elements) && IsLinkValue(p.route) && p.file != ".html" ::
      RewriteValue(p.route) == "./" + p.file
  {
    var ps := Pages(customFiles, elements);
    forall p | p in ps && IsLinkValue(p.route) && p.file != ".html"
      ensures RewriteValue(p.route) == "./" + p.file
    {
      var k :| 0 <= k < |ps| && ps[k] == p;
      RouteLinkResolvesAt(customFiles, elements, k);
    }
  }

  /** `process_and_save_file`: the file path and the page with its links fixed;
      the file write itself is the caller's. */
  method ProcessAndSaveFile(path: string, content: string) returns (saved: (string, string))
    ensures saved.0 == path && saved.1 == RewriteLinks(content)
  {
    var fixed := FixRelativeLinks(content);
    saved := (path, fixed);
  }

  /** What is saved for one page: its file and its rendered, link-fixed content. */
  function SavedPage(render: string -> string, p: Page): (string, string)
  {
    (p.file, RewriteLinks(render(p.route)))
  }

  /** What is saved for each page, in order. */
  function Saved(render: string -> string, pages: seq<Page>): (out: seq<(string, string)>)
    ensures |out| == |pages|
    ensures forall k | 0 <= k < |pages| :: out[k] == SavedPage(render, pages[k])
  {
    if |pages| == 0 then []
    else [SavedPage(render, pages[0])] + Saved(render, pages[1..])
  }

  /** The first two pages and the number of pages. */
  lemma PagesHead(customFiles: seq<string>, elements: seq<Element>)
    ensures var ps := Pages(customFiles, elements);
      && |ps| == 2 + |MarkdownFiles(customFiles)| + |elements|
      && ps[0] == Page("/", "index.html") && ps[1] == Page("/gallery", "gallery.html")
  {
    CustomPagesCount(customFiles);
  }

  /** Appending the next page's saved file keeps `written` a prefix of `Saved`. */
  lemma SavedStep(render: string -> string, ps: seq<Page>, written: seq<(string, string)>, saved: (string, string))
    requires |written| < |ps| && SavedPrefix(render, ps, written)
    requires saved == SavedPage(render, ps[|written|])
    ensures SavedPrefix(render, ps, written + [saved])
  {
  }

  /** `written` holds, in order, what is saved for the first pages of `ps`. */
  predicate SavedPrefix(render: string -> string, ps: seq<Page>, written: seq<(string, string)>)
  {
    |written| <= |ps| && forall k | 0 <= k < |written| :: written[k] == SavedPage(render, ps[k])
  }

  /** The loop of `bake_site` over the `.md` files of the custom-pages folder;
      `ps` lists every page, with the custom pages right after the first two. */
  method SaveCustomPages(render: string -> string, customFiles: seq<string>, ghost ps: seq<Page>,
                         written0: seq<(string, string)>) returns (written: seq<(string, string)>)
    requires |written0| == 2 && |ps| >= 2 + |MarkdownFiles(customFiles)|
    requires forall k | 0 <= k < |MarkdownFiles(customFiles)| :: ps[2 + k] == CustomPage(MarkdownFiles(customFiles)[k])
    requires SavedPrefix(render, ps, written0)
    ensures |written| == 2 + |MarkdownFiles(customFiles)|
    ensures SavedPrefix(render, ps, written)
  {
    written := written0;
    var mdFiles := MarkdownFiles(customFiles);
    var i := 0;
    while i < |mdFiles|
      invariant 0 <= i <= |mdFiles|
      invariant |written| == 2 + i
      invariant SavedPrefix(render, ps, written)
    {
      var pageName := Stem(mdFiles[i]);
      var saved := ProcessAndSaveFile(pageName + ".html", render("/" + pageName));
      SavedStep(render, ps, written, saved);
      written := written + [saved];
      i := i + 1;
    }
  }

  /** The loop of `bake_site` over the portfolio elements; `ps` lists every
      page, with the element pages last. */
  method SaveElementPages(render: string -> string, elements: seq<Element>, ghost ps: seq<Page>,
                          written0: seq<(string, string)>) returns (written: seq<(string, string)>)
    requires |written0| + |elements| == |ps|
    requires forall k | 0 <= k < |elements| :: ps[|written0| + k] == ElementPage(elements[k])
    requires SavedPrefix(render, ps, written0)
    ensures written == Saved(render, ps)
  {
    written := written0;
    var j := 0;
    while j < |elements|
      invariant 0 <= j <= |elements|
      invariant |written| == |written0| + j
      invariant SavedPrefix(render, ps, written)
    {
      var id := elements[j].Identifier();
      var saved := ProcessAndSaveFile("portfolio/" + id + ".html", render("portfolio/" + id));
      SavedStep(render, ps, written, saved);
      written := written + [saved];
      j := j + 1;
    }
    SavedAll(render, ps, written);
  }

  /** A prefix that covers every page is the whole of `Saved`. */
  lemma SavedAll(render: string -> string, ps: seq<Page>, written: seq<(string, string)>)
    requires |written| == |ps| && SavedPrefix(render, ps, written)
    ensures written == Saved(render, ps)
  {
  }

  /** `bake_site`: renders and saves home, gallery, each `.md` custom page and each
      element page, in that order. `render` stands for the Flask test client and
      `customFiles` for the listing of the custom-pages folder. */
  method BakeSite(render: string -> string, customFiles: seq<string>, elements: seq<Element>)
    returns (written: seq<(string, string)>)
    ensures written == Saved(render, Pages(customFiles, elements))
  {
    ghost var ps := Pages(customFiles, elements);
    PagesLayout(customFiles, elements);
    var home := ProcessAndSaveFile("index.html", render("/"));
    var gallery := ProcessAndSaveFile("gallery.html", render("/gallery"));
    written := [home, gallery];
    written := SaveCustomPages(render, customFiles, ps, written);
    written := SaveElementPages(render, elements, ps, written);
  }

  /** With no custom pages, two elements give exactly the four files. */
  lemma PagesExample(e1: Element, e2: Element)
    requires e1.Identifier() == "photo1" && e2.Identifier() == "video1"
    ensures Pages([], [e1, e2]) == [Page("/", "index.html"), Page("/gallery", "gallery.html"),
      Page("portfolio/photo1", "portfolio/photo1.html"), Page("portfolio/video1", "portfolio/video1.html")]
  {
    assert ElementPages([e1, e2])[0] == Page("portfolio/photo1", "portfolio/photo1.html");
    assert ElementPages([e1, e2])[1] == Page("portfolio/video1", "portfolio/video1.html");
  }

  // ---------------------------------------------------------------------------
  // The export as written
  // ---------------------------------------------------------------------------

  /** `fix_relative_links` as `process_and_save_file` calls it. `order` gives,
      for each page, the order in which Python walks the set of its matches;
      the interpreter fixes none, and IsSetOrder says what such an order is. */
  function FixLinksAsWritten(order: string -> seq<Match>): string -> Result<string, FixError>
  {
    content => FixAsWritten(content, order(content))
  }

  /** As written, fixing a page's links fails exactly on a page without links. */
  lemma FixLinksAsWrittenErrIff(order: string -> seq<Match>, content: string)
    requires IsSetOrder(order(content), FindAll(content, 0))
    ensures FixLinksAsWritten(order)(content).Err? <==> FindAll(content, 0) == []
  {
    SetOrderEmpty(content, order(content));
  }

  /** On a page with one distinct link, every set order gives the corrected
      rewrite. */
  lemma FixLinksAsWrittenOneLink(order: string -> seq<Match>, content: string)
    requires IsSetOrder(order(content), FindAll(content, 0))
    requires |Dedupe(FindAll(content, 0))| == 1
    ensures FixLinksAsWritten(order)(content) == Ok(RewriteLinks(content))
  {
    var m := Dedupe(FindAll(content, 0))[0];
    SetOrderOfOne(order(content), FindAll(content, 0), m);
    FixAsWrittenEndsWith(content, order(content), m);
    RewriteLinksOne(content, m);
  }

  /** A set order of matches that are all `m` is not empty and ends with `m`. */
  lemma SetOrderOfOne(o: seq<Match>, all: seq<Match>, m: Match)
    requires IsSetOrder(o, all) && Dedupe(all) == [m]
    ensures |o| > 0 && o[|o| - 1] == m
  {
    assert m in Dedupe(all);
    assert o[|o| - 1] in all;
    assert o[|o| - 1] in Dedupe(all);
  }

  /** As written, only the match walked last matters. */
  lemma FixAsWrittenEndsWith(content: string, o: seq<Match>, m: Match)
    requires |o| > 0 && o[|o| - 1] == m
    ensures FixAsWritten(content, o) == Ok(ReplaceAll(content, Full(m), ProcessMatch(m)))
  {
  }

  /** The corrected rewrite of a page with one distinct link replaces that link. */
  lemma RewriteLinksOne(content: string, m: Match)
    requires Dedupe(FindAll(content, 0)) == [m]
    ensures RewriteLinks(content) == ReplaceAll(content, Full(m), ProcessMatch(m))
  {
    var ms := Dedupe(FindAll(content, 0));
    assert ms[..0] == [] && ms[|ms| - 1] == m;
    assert ApplyAll(content, ms[..0]) == content;
  }

  /** `process_and_save_file` as written, for the order `order` in which the set
      of the page's matches is walked: the error of `fix_relative_links` ends
      the export. */
  method ProcessAndSaveFileAsWritten(path: string, content: string, order: seq<Match>)
    returns (r: Result<(string, string), FixError>)
    ensures r.Err? <==> |order| == 0
    ensures r.Err? <==> FixAsWritten(content, order).Err?
    ensures r.Ok? ==> r.value == (path, FixAsWritten(content, order).value)
  {
    var fixed := FixRelativeLinksAsWritten(content, order);
    if fixed.Err? {
      return Err(fixed.error);
    }
    return Ok((path, fixed.value));
  }

  /** What an export leaves in the output folder: the files written, in order,
      and the error that stopped it, if any. */
  datatype Export = Export(written: seq<(string, string)>, error: Option<FixError>)

  /** An export that fixes each rendered page with `fix`, writing each file as
      it goes, and stops at the first page `fix` refuses. */
  function SaveAll(fix: string -> Result<string, FixError>, render: string -> string, pages: seq<Page>): Export
  {
    if |pages| == 0 then Export([], None)
    else
      var init := SaveAll(fix, render, pages[..|pages| - 1]);
      var last := pages[|pages| - 1];
      var fixed := fix(render(last.route));
      if init.error.Some? then init
      else if fixed.Err? then Export(init.written, Some(fixed.error))
      else Export(init.written + [(last.file, fixed.value)], None)
  }

  /** The files written are those of the first pages, in order, each under the
      page's file name with `fix` applied to its rendering. Without an error
      every page is written; with one, the next page is the one `fix` refused. */
  lemma {:induction false} SaveAllWritten(fix: string -> Result<string, FixError>, render: string -> string,
                                          pages: seq<Page>)
    ensures var r := SaveAll(fix, render, pages);
      && |r.written| <= |pages|
      && (forall k | 0 <= k < |r.written| ::
            r.written[k].0 == pages[k].file && Ok(r.written[k].1) == fix(render(pages[k].route)))
      && (r.error.None? ==> |r.written| == |pages|)
      && (r.error.Some? ==> |r.written| < |pages| && fix(render(pages[|r.written|].route)).Err?)
  {
    if |pages| > 0 {
      var init := pages[..|pages| - 1];
      SaveAllWritten(fix, render, init);
      assert forall k | 0 <= k < |init| :: init[k] == pages[k];
    }
  }

  /** The export stops with an error iff `fix` refuses some page. */
  lemma SaveAllErrIff(fix: string -> Result<string, FixError>, render: string -> string, pages: seq<Page>)
    ensures SaveAll(fix, render, pages).error.Some? <==>
      exists k | 0 <= k < |pages| :: fix(render(pages[k].route)).Err?
  {
    var r := SaveAll(fix, render, pages);
    SaveAllWritten(fix, render, pages);
    if r.error.Some? {
      assert fix(render(pages[|r.written|].route)).Err?;
    }
  }

  /** A `fix` that agrees with the corrected rewrite on every page writes what
      the corrected export saves, without an error. */
  lemma SaveAllAgrees(fix: string -> Result<string, FixError>, render: string -> string, pages: seq<Page>)
    requires forall k | 0 <= k < |pages| :: fix(render(pages[k].route)) == Ok(RewriteLinks(render(pages[k].route)))
    ensures SaveAll(fix, render, pages) == Export(Saved(render, pages), None)
  {
    SaveAllErrIff(fix, render, pages);
    SaveAllWritten(fix, render, pages);
  }

  /** One more page, when no page has failed yet: that page's file is written,
      or its error stops the export. */
  lemma SaveAllStep(fix: string -> Result<string, FixError>, render: string -> string, pages: seq<Page>,
                    i: nat, written: seq<(string, string)>)
    requires i < |pages| && SaveAll(fix, render, pages[..i]) == Export(written, None)
    ensures var fixed := fix(render(pages[i].route));
      SaveAll(fix, render, pages[..i + 1]) ==
        if fixed.Err? then Export(written, Some(fixed.error)) else Export(written + [(pages[i].file, fixed.value)], None)
  {
    assert pages[..i + 1][..i] == pages[..i];
  }

  /** Once a page has failed, the later pages change nothing. */
  lemma {:induction false} SaveAllStops(fix: string -> Result<string, FixError>, render: string -> string,
                                        pages: seq<Page>, i: nat)
    requires i <= |pages| && SaveAll(fix, render, pages[..i]).error.Some?
    ensures SaveAll(fix, render, pages) == SaveAll(fix, render, pages[..i])
    decreases |pages|
  {
    if i < |pages| {
      var init := pages[..|pages| - 1];
      assert init[..i] == pages[..i];
      SaveAllStops(fix, render, init, i);
    } else {
      assert pages[..i] == pages;
    }
  }

  /** Every page's set order walks the set of its matches. */
  ghost predicate SetOrders(order: string -> seq<Match>, render: string -> string, pages: seq<Page>)
  {
    forall k | 0 <= k < |pages| :: IsSetOrder(order(render(pages[k].route)), FindAll(render(pages[k].route), 0))
  }

  /** The export as written stops iff some page is rendered without a link. When
      it stops, the files of the pages before that page are already written, and
      each of those pages has a link. */
  lemma SavedAsWrittenErrIff(render: string -> string, order: string -> seq<Match>, pages: seq<Page>)
    requires SetOrders(order, render, pages)
    ensures var r := SaveAll(FixLinksAsWritten(order), render, pages);
      && (r.error.Some? <==> exists k | 0 <= k < |pages| :: FindAll(render(pages[k].route), 0) == [])
      && (r.error.Some? ==>
            |r.written| < |pages| && FindAll(render(pages[|r.written|].route), 0) == [] &&
            forall k | 0 <= k < |r.written| :: FindAll(render(pages[k].route), 0) != [])
  {
    var fix := FixLinksAsWritten(order);
    SaveAllErrIff(fix, render, pages);
    SaveAllWritten(fix, render, pages);
    forall k | 0 <= k < |pages|
      ensures fix(render(pages[k].route)).Err? <==> FindAll(render(pages[k].route), 0) == []
    {
      FixLinksAsWrittenErrIff(order, render(pages[k].route));
    }
  }

  /** Where every page has exactly one distinct link, the export as written
      writes what the corrected export saves, whatever the set orders. */
  lemma SavedAsWrittenAgrees(render: string -> string, order: string -> seq<Match>, pages: seq<Page>)
    requires SetOrders(order, render, pages)
    requires forall k | 0 <= k < |pages| :: |Dedupe(FindAll(render(pages[k].route), 0))| == 1
    ensures SaveAll(FixLinksAsWritten(order), render, pages) == Export(Saved(render, pages), None)
  {
    forall k | 0 <= k < |pages|
      ensures FixLinksAsWritten(order)(render(pages[k].route)) == Ok(RewriteLinks(render(pages[k].route)))
    {
      FixLinksAsWrittenOneLink(order, render(pages[k].route));
    }
    SaveAllAgrees(FixLinksAsWritten(order), render, pages);
  }

  /** The page loop of `bake_site` as written: each page is rendered, fixed and
      written in order; the first page without a link raises, which ends the
      export with the files written so far. */
  method SavePagesAsWritten(render: string -> string, order: string -> seq<Match>, ps: seq<Page>)
    returns (r: Export)
    ensures r == SaveAll(FixLinksAsWritten(order), render, ps)
  {
    ghost var fix := FixLinksAsWritten(order);
    var written: seq<(string, string)> := [];
    var i := 0;
    while i < |ps|
      invariant 0 <= i <= |ps|
      invariant SaveAll(fix, render, ps[..i]) == Export(written, None)
    {
      var content := render(ps[i].route);
      var saved := ProcessAndSaveFileAsWritten(ps[i].file, content, order(content));
      SaveAllStep(fix, render, ps, i, written);
      if saved.Err? {
        SaveAllStops(fix, render, ps, i + 1);
        assert fix(content).error.UnboundLocalError? && saved.error.UnboundLocalError?;
        return Export(written, Some(saved.error));
      }
      written := written + [saved.value];
      i := i + 1;
    }
    assert ps[..i] == ps;
    r := Export(written, None);
  }

  /** `bake_site` as written: home, gallery, the custom pages and the element
      pages, in the order the source renders them (PagesLayout). */
  method BakeSiteAsWritten(render: string -> string, order: string -> seq<Match>,
                           customFiles: seq<string>, elements: seq<Element>)
    returns (r: Export)
    ensures r == SaveAll(FixLinksAsWritten(order), render, Pages(customFiles, elements))
  {
    r := SavePagesAsWritten(render, order, Pages(customFiles, elements));
  }
}
