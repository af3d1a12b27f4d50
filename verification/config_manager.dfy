/** The configuration post-processing of src/config_manager.py: link targets in
    the `top_link` and `footer_link` lists are resolved to site URLs, and the
    `style` section is normalised. Reading and parsing the TOML file is not
    modelled; the parsed configuration is the starting state. */
module ConfigManager {
  import opened Wrappers
  import opened Strings

  // ---------------------------------------------------------------------------
  // One target
  // ---------------------------------------------------------------------------

  /** Why resolving the link targets stopped. */
  datatype ConfigError =
    | MissingLinkList(key: string)       // `_config_dict["top_link"]` or `["footer_link"]` raised KeyError
    | InvalidSpecialTarget(target: string)
    | InvalidTarget(target: string)

  /** A target written `[...]`. */
  predicate IsSpecial(t: string)
  {
    StartsWith(t, "[") && EndsWith(t, "]")
  }

  /** The new value of a link's `target`, or the `ValueError` it raises. */
  function ResolveTarget(t: string): Result<string, ConfigError>
  {
    if IsSpecial(t) then
      if t == "[home]" then Ok("/")
      else if t == "[gallery]" then Ok("/gallery")
      else Err(InvalidSpecialTarget(t))
    else if Contains(t, "://") then Ok(t)
    else if EndsWith(t, ".md") then Ok(t[..|t| - 3])
    else Err(InvalidTarget(t))
  }

  /** The accepted targets are exactly the two special tags, absolute URLs that
      are not bracketed, and `.md` paths that are not bracketed. */
  lemma ResolveTargetAccepts(t: string)
    ensures ResolveTarget(t).Ok? <==>
      t == "[home]" || t == "[gallery]" ||
      (!IsSpecial(t) && (Contains(t, "://") || EndsWith(t, ".md")))
    ensures ResolveTarget(t).Err? ==>
      ResolveTarget(t).error == (if IsSpecial(t) then InvalidSpecialTarget(t) else InvalidTarget(t))
  {
  }

  /** What an accepted target becomes: the home route, the gallery route, the
      URL itself, or the path with exactly its `.md` suffix removed. */
  lemma ResolveTargetResult(t: string)
    requires ResolveTarget(t).Ok?
    ensures var r := ResolveTarget(t).value;
      || (t == "[home]" && r == "/")
      || (t == "[gallery]" && r == "/gallery")
      || (!IsSpecial(t) && Contains(t, "://") && r == t)
      || (!IsSpecial(t) && !Contains(t, "://") && EndsWith(t, ".md") && r + ".md" == t)
  {
    var r := ResolveTarget(t).value;
    if !IsSpecial(t) && !Contains(t, "://") {
      assert t == t[..|t| - 3] + t[|t| - 3..];
    }
  }

  /** The bracket test comes first: a bracketed URL is refused. */
  lemma BracketedUrlRefused(u: string)
    ensures ResolveTarget("[" + u + "://]").Err?
  {
    var t := "[" + u + "://]";
    assert t[..1] == "[" && t[|t| - 1..] == "]";
    assert t[|t| - 2] == '/' && "[home]"[4] != '/' && "[gallery]"[7] != '/';
  }

  /** A `.md` target keeps everything but its last three characters, including
      any earlier `.md`. */
  lemma MarkdownTargetExample()
    ensures ResolveTarget("about.md") == Ok("about")
    ensures ResolveTarget("notes.md.md") == Ok("notes.md")
  {
    NoColonNoUrl("about.md");
    NoColonNoUrl("notes.md.md");
    assert "about.md"[..1][0] == 'a' && "notes.md.md"[..1][0] == 'n';
    assert "about.md"[5..] == ".md" && "about.md"[..5] == "about";
    assert "notes.md.md"[8..] == ".md" && "notes.md.md"[..8] == "notes.md";
  }

  lemma NoColonNoUrl(t: string)
    requires ':' !in t
    ensures !Contains(t, "://")
  {
    forall i | 0 <= i <= |t| - 3 ensures !OccursAt(t, "://", i) {
      assert t[i..i + 3][0] == t[i];
    }
  }

  // ---------------------------------------------------------------------------
  // The link lists
  // ---------------------------------------------------------------------------

  /** A link table from the configuration (its string-valued keys). */
  type Link = map<string, string>

  /** One iteration of the loop: a link without `target` is skipped (the
      KeyError is logged), any other has its target replaced or raises. */
  function ResolveLink(l: Link): Result<Link, ConfigError>
  {
    if "target" !in l then Ok(l)
    else
      match ResolveTarget(l["target"])
      case Ok(t) => Ok(l["target" := t])
      case Err(e) => Err(e)
  }

  /** Resolving a link touches its `target` only. */
  lemma ResolveLinkOnlyTarget(l: Link)
    requires ResolveLink(l).Ok?
    ensures ResolveLink(l).value.Keys == l.Keys
    ensures forall k | k in l && k != "target" :: ResolveLink(l).value[k] == l[k]
    ensures "target" in l ==> ResolveLink(l).value["target"] == ResolveTarget(l["target"]).value
  {
  }

  /** The links after the loop over `ls` and the error that stopped it: the
      links before the failing one are resolved, it and the ones after it are
      left as they were. */
  function ResolveLinks(ls: seq<Link>): (r: (seq<Link>, Option<ConfigError>))
    ensures |r.0| == |ls|
  {
    if |ls| == 0 then ([], None)
    else
      match ResolveLink(ls[0])
      case Err(e) => (ls, Some(e))
      case Ok(l) =>
        var rest := ResolveLinks(ls[1..]);
        ([l] + rest.0, rest.1)
  }

  /** The position of the first link whose target raises, or `|ls|` when none does. */
  function FirstFailure(ls: seq<Link>): (k: nat)
    ensures k <= |ls|
    ensures forall j | 0 <= j < k :: ResolveLink(ls[j]).Ok?
    ensures k < |ls| ==> ResolveLink(ls[k]).Err?
  {
    if |ls| == 0 || ResolveLink(ls[0]).Err? then 0
    else
      var k := 1 + FirstFailure(ls[1..]);
      assert forall j | 1 <= j < k :: ls[j] == ls[1..][j - 1];
      k
  }

  /** The links before the first failing one are resolved. */
  lemma {:induction false} ResolveLinksPrefix(ls: seq<Link>)
    ensures forall j | 0 <= j < FirstFailure(ls) :: ResolveLinks(ls).0[j] == ResolveLink(ls[j]).value
  {
    if |ls| > 0 && ResolveLink(ls[0]).Ok? {
      var rest := ls[1..];
      ResolveLinksPrefix(rest);
      var out, rout := ResolveLinks(ls).0, ResolveLinks(rest).0;
      assert out == [ResolveLink(ls[0]).value] + rout;
      forall j | 1 <= j < FirstFailure(ls) ensures out[j] == ResolveLink(ls[j]).value {
        assert ls[j] == rest[j - 1] && out[j] == rout[j - 1];
      }
    }
  }

  /** The loop reports an error exactly when some link raises; the error is the
      first failing link's, and that link and the ones after it are unchanged. */
  lemma {:induction false} ResolveLinksFailure(ls: seq<Link>)
    ensures ResolveLinks(ls).1.None? <==> FirstFailure(ls) == |ls|
    ensures FirstFailure(ls) < |ls| ==>
      && ResolveLinks(ls).1 == Some(ResolveLink(ls[FirstFailure(ls)]).error)
      && ResolveLinks(ls).0[FirstFailure(ls)..] == ls[FirstFailure(ls)..]
  {
    if |ls| > 0 && ResolveLink(ls[0]).Ok? {
      var rest := ls[1..];
      ResolveLinksFailure(rest);
      var out, rout := ResolveLinks(ls).0, ResolveLinks(rest).0;
      assert out == [ResolveLink(ls[0]).value] + rout;
      var k := FirstFailure(rest);
      if k < |rest| {
        assert ls[k + 1] == rest[k];
        assert out[k + 1..] == rout[k..];
        assert ls[k + 1..] == rest[k..];
      }
    }
  }

  /** With no error, every link is resolved. */
  lemma ResolveLinksAllResolved(ls: seq<Link>)
    requires ResolveLinks(ls).1.None?
    ensures forall k | 0 <= k < |ls| ::
      ResolveLink(ls[k]).Ok? && ResolveLinks(ls).0[k] == ResolveLink(ls[k]).value
  {
    ResolveLinksFailure(ls);
    ResolveLinksPrefix(ls);
  }

  /** Resolving a list made of two lists resolves the first, then, if it raised
      nothing, the second. */
  lemma {:induction false} ResolveLinksAppend(a: seq<Link>, b: seq<Link>)
    ensures ResolveLinks(a + b) ==
      if ResolveLinks(a).1.Some? then (ResolveLinks(a).0 + b, ResolveLinks(a).1)
      else (ResolveLinks(a).0 + ResolveLinks(b).0, ResolveLinks(b).1)
  {
    if |a| > 0 {
      assert (a + b)[0] == a[0];
      assert (a + b)[1..] == a[1..] + b;
      ResolveLinksAppend(a[1..], b);
      match ResolveLink(a[0]) {
        case Err(e) =>
          assert ResolveLinks(a) == (a, Some(e));
        case Ok(l) =>
          assert ResolveLinks(a + b) == ([l] + ResolveLinks(a[1..] + b).0, ResolveLinks(a[1..] + b).1);
          var x := ResolveLinks(a[1..]).0;
          assert ResolveLinks(a) == ([l] + x, ResolveLinks(a[1..]).1);
          assert [l] + (x + b) == ([l] + x) + b;
          assert [l] + (x + ResolveLinks(b).0) == ([l] + x) + ResolveLinks(b).0;
      }
    } else {
      assert a + b == b;
      assert ResolveLinks(a).0 + ResolveLinks(b).0 == ResolveLinks(b).0;
    }
  }

  /** `ResolveLinks` is the resolved links before the first failing one,
      followed by the rest unchanged, with that link's error if there is one. */
  lemma ResolveLinksIs(all: seq<Link>, done: seq<Link>)
    requires |done| == FirstFailure(all)
    requires forall j | 0 <= j < |done| :: done[j] == ResolveLink(all[j]).value
    ensures ResolveLinks(all) ==
      (done + all[|done|..], if |done| < |all| then Some(ResolveLink(all[|done|]).error) else None)
  {
    ResolveLinksFailure(all);
    ResolveLinksPrefix(all);
    var out := ResolveLinks(all).0;
    var k := |done|;
    if k == |all| {
      assert all[k..] == [];
    }
    PrefixAndRest(out, done, all[k..]);
  }

  /** A sequence that starts with `a`, pointwise, and continues with `b` is `a + b`. */
  lemma PrefixAndRest<T>(s: seq<T>, a: seq<T>, b: seq<T>)
    requires |a| <= |s| && forall j | 0 <= j < |a| :: s[j] == a[j]
    requires s[|a|..] == b
    ensures s == a + b
  {
    assert s == s[..|a|] + s[|a|..];
  }

  /** The loop of `resolve_config_link_targets` over the joined link list: the
      links are rewritten one after the other until one raises. */
  method ResolveEach(all: seq<Link>) returns (links: seq<Link>, err: Option<ConfigError>)
    ensures (links, err) == ResolveLinks(all)
  {
    var done: seq<Link> := [];
    var i := 0;
    while i < |all|
      invariant i == |done| <= FirstFailure(all)
      invariant forall j | 0 <= j < i :: done[j] == ResolveLink(all[j]).value
    {
      var r := ResolveLink(all[i]);
      if r.Err? {
        ResolveLinksIs(all, done);
        return done + all[i..], Some(r.error);
      }
      done := done + [r.value];
      i := i + 1;
    }
    ResolveLinksIs(all, done);
    assert done + all[i..] == done;
    return done, None;
  }

  // ---------------------------------------------------------------------------
  // The style section
  // ---------------------------------------------------------------------------

  /** A value that means "no override". */
  predicate IsNonOverride(v: string)
  {
    v == "" || v == "default"
  }

  /** `_config_dict["style"]`: absent from the file, a table of string values
      in file order, or None. The corrected normalisation keeps the table and
      replaces each non-override value by None. */
  datatype StyleSection =
    | Absent
    | Table(entries: seq<(string, Option<string>)>)
    | Cleared

  /** A table as read from the file: every value present. */
  function FromFile(entries: seq<(string, string)>): (t: seq<(string, Option<string>)>)
    ensures |t| == |entries|
    ensures forall k | 0 <= k < |entries| :: t[k] == (entries[k].0, Some(entries[k].1))
  {
    if |entries| == 0 then []
    else [(entries[0].0, Some(entries[0].1))] + FromFile(entries[1..])
  }

  /** Some value of the table means "no override". */
  predicate HasNonOverride(entries: seq<(string, Option<string>)>)
  {
    exists k | 0 <= k < |entries| :: entries[k].1.Some? && IsNonOverride(entries[k].1.value)
  }

  /** One entry with a non-override value replaced by None. */
  function NormaliseEntry(e: (string, Option<string>)): (string, Option<string>)
  {
    (e.0, if e.1.Some? && IsNonOverride(e.1.value) then None else e.1)
  }

  /** Each non-override value replaced by None, the others kept, order kept. */
  function Normalise(entries: seq<(string, Option<string>)>): (r: seq<(string, Option<string>)>)
    ensures |r| == |entries|
    ensures forall k | 0 <= k < |entries| :: r[k] == NormaliseEntry(entries[k])
  {
    if |entries| == 0 then []
    else Normalise(entries[..|entries| - 1]) + [NormaliseEntry(entries[|entries| - 1])]
  }

  /** Normalising one more entry of the table extends the result by that entry. */
  lemma NormaliseStep(entries: seq<(string, Option<string>)>, i: nat)
    requires i < |entries|
    ensures Normalise(entries[..i + 1]) == Normalise(entries[..i]) + [NormaliseEntry(entries[i])]
  {
    assert entries[..i + 1][..i] == entries[..i];
  }

  /** Normalising twice changes nothing more, and a normalised table holds no
      non-override value. */
  lemma NormaliseIdempotent(entries: seq<(string, Option<string>)>)
    ensures !HasNonOverride(Normalise(entries))
    ensures Normalise(Normalise(entries)) == Normalise(entries)
  {
  }

  /** What `parse_style_configs` leaves as written: the whole section None as
      soon as one value is a non-override, an absent section an empty table. */
  function StyleAsWritten(s: StyleSection): StyleSection
  {
    match s
    case Absent => Table([])
    case Table(entries) => if HasNonOverride(entries) then Cleared else s
    case Cleared => Cleared
  }

  /** The normalisation the comment at src/config_manager.py:49 describes. */
  function StyleNormalised(s: StyleSection): StyleSection
  {
    match s
    case Absent => Table([])
    case Table(entries) => Table(Normalise(entries))
    case Cleared => Cleared
  }

  /** As written, one "default" value discards the overrides beside it; the
      corrected normalisation keeps them. */
  lemma StyleAsWrittenDropsOverrides(key: string, other: string, v: string)
    requires !IsNonOverride(v)
    ensures StyleAsWritten(Table(FromFile([(key, "default"), (other, v)]))) == Cleared
    ensures StyleNormalised(Table(FromFile([(key, "default"), (other, v)])))
         == Table([(key, None), (other, Some(v))])
  {
    var t := FromFile([(key, "default"), (other, v)]);
    assert t[0] == (key, Some("default"));
    assert HasNonOverride(t);
  }

  /** Both agree on a table without non-override values, and on an absent one. */
  lemma StyleAgreesWithoutNonOverrides(s: StyleSection)
    requires s.Table? ==> !HasNonOverride(s.entries)
    ensures StyleAsWritten(s) == StyleNormalised(s)
  {
    if s.Table? {
      assert Normalise(s.entries) == s.entries;
    }
  }

  // ---------------------------------------------------------------------------
  // The configuration dictionary
  // ---------------------------------------------------------------------------

  /** The parts of `_config_dict` the post-processing reads and writes. A link
      list is None when its key is missing from the file. */
  class Config {
    var topLinks: Option<seq<Link>>
    var footerLinks: Option<seq<Link>>
    var style: StyleSection

    constructor(topLinks: Option<seq<Link>>, footerLinks: Option<seq<Link>>, style: StyleSection)
      ensures this.topLinks == topLinks && this.footerLinks == footerLinks && this.style == style
    {
      this.topLinks := topLinks;
      this.footerLinks := footerLinks;
      this.style := style;
    }

    /** `resolve_config_link_targets`: walks `top_link + footer_link` in order,
        rewriting each link's `target` in place, and stops at the first target
        that raises; the links already rewritten stay rewritten. */
    method ResolveConfigLinkTargets() returns (err: Option<ConfigError>)
      modifies this
      ensures style == old(style)
      ensures old(topLinks).None? ==>
        err == Some(MissingLinkList("top_link")) && topLinks == old(topLinks) && footerLinks == old(footerLinks)
      ensures old(topLinks).Some? && old(footerLinks).None? ==>
        err == Some(MissingLinkList("footer_link")) && topLinks == old(topLinks) && footerLinks == old(footerLinks)
      ensures old(topLinks).Some? && old(footerLinks).Some? ==>
        var top := old(topLinks).value;
        var (out, e) := ResolveLinks(top + old(footerLinks).value);
        && err == e
        && topLinks == Some(out[..|top|])
        && footerLinks == Some(out[|top|..])
    {
      if topLinks.None? {
        return Some(MissingLinkList("top_link"));
      }
      if footerLinks.None? {
        return Some(MissingLinkList("footer_link"));
      }
      var top := topLinks.value;
      var links;
      links, err := ResolveEach(top + footerLinks.value);
      topLinks := Some(links[..|top|]);
      footerLinks := Some(links[|top|..]);
    }

    /** `parse_style_configs` as written. */
    method ParseStyleConfigsAsWritten()
      modifies this
      ensures style == StyleAsWritten(old(style))
      ensures topLinks == old(topLinks) && footerLinks == old(footerLinks)
    {
      match style {
        case Absent =>
          style := Table([]);
        case Cleared =>
        case Table(entries) =>
          var i := 0;
          while i < |entries|
            invariant 0 <= i <= |entries|
            invariant style == if HasNonOverride(entries[..i]) then Cleared else Table(entries)
            invariant topLinks == old(topLinks) && footerLinks == old(footerLinks)
          {
            var value := entries[i].1;
            if value.Some? && IsNonOverride(value.value) {
              style := Cleared;
            }
            assert forall k | 0 <= k < i :: entries[..i + 1][k] == entries[..i][k];
            i := i + 1;
          }
          assert entries[..i] == entries;
      }
    }

    /** `parse_style_configs` as its comment describes it: each non-override
        value becomes None. */
    method ParseStyleConfigs()
      modifies this
      ensures style == StyleNormalised(old(style))
      ensures topLinks == old(topLinks) && footerLinks == old(footerLinks)
    {
      match style {
        case Absent =>
          style := Table([]);
        case Cleared =>
        case Table(entries) =>
          var normalised: seq<(string, Option<string>)> := [];
          var i := 0;
          while i < |entries|
            invariant 0 <= i <= |entries|
            invariant normalised == Normalise(entries[..i])
            invariant topLinks == old(topLinks) && footerLinks == old(footerLinks)
          {
            var (key, value) := entries[i];
            NormaliseStep(entries, i);
            if value.Some? && IsNonOverride(value.value) {
              normalised := normalised + [(key, None)];
            } else {
              normalised := normalised + [(key, value)];
            }
            i := i + 1;
          }
          assert entries[..i] == entries;
          style := Table(normalised);
      }
    }
  }
}
