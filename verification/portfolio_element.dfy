/** One portfolio asset (src/portfolio_element.py): its stored path, the
    identifier derived from it by `os.path.splitext`, and its caption document. */
module Elements {
  import opened Strings

  /** The last component of `p` has an extension: a `.` preceded, inside that
      component, by some character that is not a `.` (POSIX `splitext` rule). */
  predicate HasExtension(p: string)
  {
    exists j, i | 0 <= j < i < |p| ::
      p[j] != '.' && p[i] == '.' && '/' !in p[j..]
  }

  /** Python's `posixpath.splitext`: the root and the extension of `p`. The
      extension starts at the last `.` of the last component, unless only dots
      precede that `.` inside the component. */
  function SplitExt(p: string): (string, string)
  {
    var sep := LastIndexOf(p, '/');
    var dot := LastIndexOf(p, '.');
    if sep < dot && exists k | sep < k < dot :: p[k] != '.' then
      (p[..dot], p[dot..])
    else
      (p, [])
  }

  /** Root and extension put back together give the path; the extension is
      empty or a `.` followed by neither `.` nor `/`. */
  lemma SplitExtShape(p: string)
    ensures SplitExt(p).0 + SplitExt(p).1 == p
    ensures var ext := SplitExt(p).1;
      ext == [] || (ext[0] == '.' && '/' !in ext && '.' !in ext[1..])
  {
    var dot := LastIndexOf(p, '.');
    LastIndexOfIsLast(p, '/');
    LastIndexOfIsLast(p, '.');
    if SplitExt(p).1 != [] {
      assert p[..dot] + p[dot..] == p;
    }
  }

  /** The extension is non-empty exactly when the last component has one. */
  lemma ExtensionIff(p: string)
    ensures SplitExt(p).1 != [] <==> HasExtension(p)
  {
    var sep := LastIndexOf(p, '/');
    var dot := LastIndexOf(p, '.');
    LastIndexOfIsLast(p, '/');
    LastIndexOfIsLast(p, '.');
    if SplitExt(p).1 != [] {
      var k :| sep < k < dot && p[k] != '.';
      assert '/' !in p[k..] by {
        forall m | k <= m < |p| ensures p[m] != '/' { }
      }
    }
    if HasExtension(p) {
      var j, i :| 0 <= j < i < |p| && p[j] != '.' && p[i] == '.' && '/' !in p[j..];
      assert p[i] == '.';
      assert sep < j < dot;
    }
  }

  /** A path whose last component has no `.`, or only leading dots (`.hidden`),
      is its own root. */
  lemma NoExtensionIsOwnRoot(p: string)
    requires !HasExtension(p)
    ensures SplitExt(p) == (p, [])
  {
    ExtensionIff(p);
  }

  /** A portfolio element, built from its asset path relative to the portfolio
      folder; `get_asset_path` returns `assetPath` unchanged. */
  datatype Element = Element(assetPath: string)
  {
    /** `get_asset_identifier`: the asset path without its extension. */
    function Identifier(): string
    {
      SplitExt(assetPath).0
    }

    /** The caption document read by `get_asset_text`. */
    function CaptionPath(): (r: string)
      ensures EndsWith(r, ".md") && r[..|r| - 3] == Identifier()
    {
      Identifier() + ".md"
    }

    /** `get_asset_text`, with the file system given as a map from the paths
        of existing regular files to their contents. */
    function AssetText(files: map<string, string>): (text: string)
      ensures CaptionPath() in files ==> text == files[CaptionPath()]
      ensures CaptionPath() !in files ==> text == ""
    {
      if CaptionPath() in files then files[CaptionPath()] else ""
    }
  }

  /** The identifier is the asset path with its extension removed: putting the
      extension back gives the asset path again. */
  lemma IdentifierRoundTrip(e: Element)
    ensures e.Identifier() + SplitExt(e.assetPath).1 == e.assetPath
    ensures StartsWith(e.assetPath, e.Identifier())
    ensures var ext := e.assetPath[|e.Identifier()|..];
      ext == [] || (ext[0] == '.' && '/' !in ext && '.' !in ext[1..])
    ensures e.Identifier() == e.assetPath <==> !HasExtension(e.assetPath)
  {
    var p := e.assetPath;
    SplitExtShape(p);
    ExtensionIff(p);
    var (root, ext) := SplitExt(p);
    assert p[..|root|] == root && p[|root|..] == ext;
  }

  /** The two `rfind` results SplitExt works from, once they are known. */
  lemma LastSeparatorAndDot(p: string, sep: int, dot: int)
    requires -1 <= sep < |p| && (sep >= 0 ==> p[sep] == '/') && forall k | sep < k < |p| :: p[k] != '/'
    requires -1 <= dot < |p| && (dot >= 0 ==> p[dot] == '.') && forall k | dot < k < |p| :: p[k] != '.'
    ensures LastIndexOf(p, '/') == sep && LastIndexOf(p, '.') == dot
  {
    LastIndexOfIs(p, '/', sep);
    LastIndexOfIs(p, '.', dot);
  }

  /** Worked case: the final extension alone is removed. */
  lemma IdentifierDropsLastExtension()
    ensures Element("photo.jpg").Identifier() == "photo"
    ensures Element("archive.tar.gz").Identifier() == "archive.tar"
  {
    var s := "photo.jpg";
    LastSeparatorAndDot(s, -1, 5);
    assert s[0] != '.' && s[..5] == "photo";
    var t := "archive.tar.gz";
    LastSeparatorAndDot(t, -1, 11);
    assert t[0] != '.' && t[..11] == "archive.tar";
  }

  /** Worked case: leading dots of the last component start no extension. */
  lemma IdentifierKeepsDotFile()
    ensures Element(".hidden").Identifier() == ".hidden"
    ensures Element("dir/.x.png").Identifier() == "dir/.x"
  {
    var h := ".hidden";
    LastSeparatorAndDot(h, -1, 0);
    var s := "dir/.x.png";
    LastSeparatorAndDot(s, 3, 6);
    assert s[5] != '.' && s[..6] == "dir/.x";
  }

  /** Worked case: a dot in a directory name is not an extension. */
  lemma IdentifierIgnoresDirectoryDot()
    ensures Element("a.b/c").Identifier() == "a.b/c"
  {
    LastSeparatorAndDot("a.b/c", 3, 1);
  }
}
