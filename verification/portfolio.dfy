/** The portfolio index (src/portfolio.py): the ordered list of asset elements
    discovered once in the portfolio folder, with lookup and neighbour navigation. */
module PortfolioIndex {
  import opened Wrappers
  import opened Strings
  import opened Elements

  /** One entry of the non-recursive folder listing, in listing order:
      its name and whether it is a regular file. */
  datatype Entry = Entry(name: string, isFile: bool)

  /** Caption and text documents are never assets. */
  const IgnoredExtensions: seq<string> := [".md", ".txt"]

  /** Case-sensitive `endswith` against the ignored extensions. */
  predicate IsIgnored(name: string)
  {
    exists ext | ext in IgnoredExtensions :: EndsWith(name, ext)
  }

  /** A listing entry that becomes an element unless its identifier collides. */
  predicate IsCandidate(f: Entry)
  {
    f.isFile && !IsIgnored(f.name)
  }

  function IdOf(f: Entry): string
  {
    Element(f.name).Identifier()
  }

  /** No two elements share an identifier. */
  ghost predicate UniqueIdentifiers(elems: seq<Element>)
  {
    forall i, j | 0 <= i < j < |elems| :: elems[i].Identifier() != elems[j].Identifier()
  }

  /** Some element has identifier `id`. */
  predicate HasIdentifier(elems: seq<Element>, id: string)
  {
    exists k | 0 <= k < |elems| :: elems[k].Identifier() == id
  }

  /** The first element whose identifier is `id`, if any. */
  function Lookup(elems: seq<Element>, id: string): (r: Option<Element>)
    ensures r.None? <==> !HasIdentifier(elems, id)
    ensures r.Some? ==> r.value in elems && r.value.Identifier() == id
  {
    if |elems| == 0 then None
    else if elems[0].Identifier() == id then Some(elems[0])
    else
      var r := Lookup(elems[1..], id);
      assert HasIdentifier(elems, id) ==> HasIdentifier(elems[1..], id) by {
        if HasIdentifier(elems, id) {
          var k :| 0 <= k < |elems| && elems[k].Identifier() == id;
          assert elems[1..][k - 1] == elems[k];
        }
      }
      assert HasIdentifier(elems[1..], id) ==> HasIdentifier(elems, id) by {
        if HasIdentifier(elems[1..], id) {
          var k :| 0 <= k < |elems[1..]| && elems[1..][k].Identifier() == id;
          assert elems[k + 1] == elems[1..][k];
        }
      }
      r
  }

  /** The lookup answers with the first match: no earlier element has `id`. */
  lemma {:induction false} LookupIsFirst(elems: seq<Element>, id: string)
    requires HasIdentifier(elems, id)
    ensures exists k | 0 <= k < |elems| ::
      elems[k] == Lookup(elems, id).value &&
      forall j | 0 <= j < k :: elems[j].Identifier() != id
  {
    if elems[0].Identifier() != id {
      LookupIsFirst(elems[1..], id);
      var k :| 0 <= k < |elems[1..]| && elems[1..][k] == Lookup(elems[1..], id).value &&
        forall j | 0 <= j < k :: elems[1..][j].Identifier() != id;
      assert elems[k + 1] == Lookup(elems, id).value;
      forall j | 0 <= j < k + 1 ensures elems[j].Identifier() != id {
        if j > 0 { assert elems[j] == elems[1..][j - 1]; }
      }
    } else {
      assert elems[0] == Lookup(elems, id).value;
    }
  }

  /** The linear scan for the first element with identifier `id`; it serves the
      collision check of the discovery and `get_element_by_identifier`. */
  method FindByIdentifier(elems: seq<Element>, id: string) returns (r: Option<Element>)
    ensures r == Lookup(elems, id)
  {
    var i := 0;
    while i < |elems|
      invariant 0 <= i <= |elems|
      invariant Lookup(elems[i..], id) == Lookup(elems, id)
    {
      if elems[i].Identifier() == id {
        return Some(elems[i]);
      }
      assert elems[i..][1..] == elems[i + 1..];
      i := i + 1;
    }
    return None;
  }

  /** One step of the discovery: a candidate is appended unless an element
      already accepted has its identifier (the earlier one wins). */
  function Accept(acc: seq<Element>, f: Entry): seq<Element>
  {
    if !IsCandidate(f) then acc
    else if Lookup(acc, IdOf(f)).Some? then acc
    else acc + [Element(f.name)]
  }

  /** The elements discovered from a listing, entry by entry in listing order. */
  function Scan(files: seq<Entry>): seq<Element>
  {
    if |files| == 0 then []
    else Accept(Scan(files[..|files| - 1]), files[|files| - 1])
  }

  /** The whole discovery; a missing portfolio folder (`None`) gives no element. */
  function Discover(listing: Option<seq<Entry>>): (r: seq<Element>)
    ensures listing.None? ==> r == []
  {
    match listing
    case None => []
    case Some(files) => Scan(files)
  }

  /** Entry `i` is kept: it is a candidate and no earlier candidate has its identifier. */
  predicate KeptAt(files: seq<Entry>, i: int)
    requires 0 <= i < |files|
  {
    IsCandidate(files[i]) &&
    forall j | 0 <= j < i :: !(IsCandidate(files[j]) && IdOf(files[j]) == IdOf(files[i]))
  }

  /** The positions of the kept entries, in increasing order. */
  function KeptIndices(files: seq<Entry>): (ks: seq<nat>)
    ensures forall k | 0 <= k < |ks| :: ks[k] < |files|
    ensures forall k, l | 0 <= k < l < |ks| :: ks[k] < ks[l]
    ensures forall i :: i in ks <==> 0 <= i < |files| && KeptAt(files, i)
  {
    if |files| == 0 then []
    else
      var init := files[..|files| - 1];
      assert forall i | 0 <= i < |init| :: KeptAt(init, i) == KeptAt(files, i);
      KeptIndices(init) + (if KeptAt(files, |files| - 1) then [|files| - 1] else [])
  }

  /** Some candidate of the listing has identifier `id`. */
  predicate ListsIdentifier(files: seq<Entry>, id: string)
  {
    exists j | 0 <= j < |files| :: IsCandidate(files[j]) && IdOf(files[j]) == id
  }

  /** An identifier is represented after the discovery exactly when some
      candidate of the listing has it. */
  lemma {:induction false} ScanIdentifiers(files: seq<Entry>, id: string)
    ensures HasIdentifier(Scan(files), id) <==> ListsIdentifier(files, id)
  {
    if |files| > 0 {
      var init := files[..|files| - 1];
      ScanIdentifiers(init, id);
      AcceptIdentifiers(Scan(init), files[|files| - 1], id);
      ListsIdentifierLast(files, id);
    }
  }

  /** One discovery step adds the identifier of an accepted candidate and no other. */
  lemma AcceptIdentifiers(acc: seq<Element>, f: Entry, id: string)
    ensures HasIdentifier(Accept(acc, f), id) <==> HasIdentifier(acc, id) || (IsCandidate(f) && IdOf(f) == id)
  {
    if IsCandidate(f) && Lookup(acc, IdOf(f)).None? {
      HasIdentifierAppend(acc, Element(f.name), id);
    }
  }

  lemma HasIdentifierAppend(acc: seq<Element>, e: Element, id: string)
    ensures HasIdentifier(acc + [e], id) <==> HasIdentifier(acc, id) || e.Identifier() == id
  {
    var out := acc + [e];
    if HasIdentifier(acc, id) {
      var k :| 0 <= k < |acc| && acc[k].Identifier() == id;
      assert out[k] == acc[k];
    }
    if e.Identifier() == id {
      assert out[|acc|] == e;
    }
    if HasIdentifier(out, id) {
      var k :| 0 <= k < |out| && out[k].Identifier() == id;
      if k < |acc| {
        assert acc[k] == out[k];
      }
    }
  }

  lemma ListsIdentifierLast(files: seq<Entry>, id: string)
    requires |files| > 0
    ensures ListsIdentifier(files, id) <==>
      ListsIdentifier(files[..|files| - 1], id) ||
      (IsCandidate(files[|files| - 1]) && IdOf(files[|files| - 1]) == id)
  {
    var init := files[..|files| - 1];
    if ListsIdentifier(init, id) {
      var j :| 0 <= j < |init| && IsCandidate(init[j]) && IdOf(init[j]) == id;
      assert files[j] == init[j];
    }
    if ListsIdentifier(files, id) {
      var j :| 0 <= j < |files| && IsCandidate(files[j]) && IdOf(files[j]) == id;
      if j < |init| {
        assert init[j] == files[j];
      }
    }
  }

  /** The discovery keeps exactly the first candidate of every identifier, in
      listing order: element `k` is the entry at the `k`-th kept position. */
  lemma {:induction false} ScanIsKeptEntries(files: seq<Entry>)
    ensures |Scan(files)| == |KeptIndices(files)|
    ensures forall k | 0 <= k < |Scan(files)| ::
      Scan(files)[k] == Element(files[KeptIndices(files)[k]].name)
  {
    if |files| > 0 {
      var init := files[..|files| - 1];
      var last := files[|files| - 1];
      ScanIsKeptEntries(init);
      ScanLast(files);
      KeptIndicesLast(files);
      var acc, ks := Scan(init), KeptIndices(init);
      forall k | 0 <= k < |acc|
        ensures Scan(files)[k] == Element(files[KeptIndices(files)[k]].name)
      {
        assert KeptIndices(files)[k] == ks[k] < |init|;
        assert files[ks[k]] == init[ks[k]];
      }
    }
  }

  /** The positions kept in a listing extend those kept in all but its last entry. */
  lemma KeptIndicesLast(files: seq<Entry>)
    requires |files| > 0
    ensures KeptIndices(files) == KeptIndices(files[..|files| - 1]) +
      (if KeptAt(files, |files| - 1) then [|files| - 1] else [])
  {
  }

  /** The discovery appends the last entry exactly when that entry is kept. */
  lemma ScanLast(files: seq<Entry>)
    requires |files| > 0
    ensures Scan(files) == Scan(files[..|files| - 1]) +
      (if KeptAt(files, |files| - 1) then [Element(files[|files| - 1].name)] else [])
  {
    var init := files[..|files| - 1];
    var last := files[|files| - 1];
    ScanIdentifiers(init, IdOf(last));
    if IsCandidate(last) {
      KeptLastIff(files);
      if Lookup(Scan(init), IdOf(last)).None? {
        assert Scan(files) == Scan(init) + [Element(last.name)];
      }
    }
  }

  /** A last candidate is kept exactly when no earlier candidate has its identifier. */
  lemma KeptLastIff(files: seq<Entry>)
    requires |files| > 0 && IsCandidate(files[|files| - 1])
    ensures KeptAt(files, |files| - 1) <==> !ListsIdentifier(files[..|files| - 1], IdOf(files[|files| - 1]))
  {
    var init := files[..|files| - 1];
    var id := IdOf(files[|files| - 1]);
    if ListsIdentifier(init, id) {
      var j :| 0 <= j < |init| && IsCandidate(init[j]) && IdOf(init[j]) == id;
      assert files[j] == init[j];
    } else {
      forall j | 0 <= j < |files| - 1
        ensures !(IsCandidate(files[j]) && IdOf(files[j]) == id)
      {
        assert init[j] == files[j];
      }
    }
  }

  /** Identifiers in the index are unique. */
  lemma {:induction false} ScanUnique(files: seq<Entry>)
    ensures UniqueIdentifiers(Scan(files))
  {
    if |files| > 0 {
      var init := files[..|files| - 1];
      ScanUnique(init);
    }
  }

  /** Every element comes from a regular file of the listing whose name does not
      end in an ignored extension; no element is a caption or text document. */
  lemma ScanOnlyAssets(files: seq<Entry>)
    ensures forall k | 0 <= k < |Scan(files)| ::
      !IsIgnored(Scan(files)[k].assetPath) &&
      exists i | 0 <= i < |files| :: files[i].isFile && files[i].name == Scan(files)[k].assetPath
  {
    ScanIsKeptEntries(files);
    forall k | 0 <= k < |Scan(files)|
      ensures !IsIgnored(Scan(files)[k].assetPath)
      ensures exists i | 0 <= i < |files| :: files[i].isFile && files[i].name == Scan(files)[k].assetPath
    {
      var i := KeptIndices(files)[k];
      assert KeptAt(files, i);
    }
  }

  lemma ScanStep(files: seq<Entry>, i: nat)
    requires i < |files|
    ensures Scan(files[..i + 1]) == Accept(Scan(files[..i]), files[i])
  {
    assert files[..i + 1][..i] == files[..i];
  }

  lemma IgnoredExtensionsAre(name: string)
    ensures IsIgnored(name) <==> EndsWith(name, ".md") || EndsWith(name, ".txt")
  {
    assert IgnoredExtensions[0] == ".md" && IgnoredExtensions[1] == ".txt";
  }

  /** The discovery loop: the listing is walked once, in order, with a filter
      and a collision scan per file. */
  method DiscoverElements(listing: Option<seq<Entry>>) returns (elems: seq<Element>)
    ensures elems == Discover(listing)
  {
    elems := [];
    if listing.None? {
      return;
    }
    var files := listing.value;
    var i := 0;
    while i < |files|
      invariant 0 <= i <= |files|
      invariant elems == Scan(files[..i])
    {
      var f := files[i];
      ScanStep(files, i);
      IgnoredExtensionsAre(f.name);
      if f.isFile && !(EndsWith(f.name, ".md") || EndsWith(f.name, ".txt")) {
        var candidate := Element(f.name);
        var collision := FindByIdentifier(elems, candidate.Identifier());
        if collision.None? {
          elems := elems + [candidate];
        }
      }
      i := i + 1;
    }
    assert files[..|files|] == files;
  }

  /** `list.index`: the first position holding `e`. */
  function IndexOf(s: seq<Element>, e: Element): (i: nat)
    requires e in s
    ensures i < |s| && s[i] == e && e !in s[..i]
  {
    if s[0] == e then 0
    else
      var i := IndexOf(s[1..], e);
      assert s[..i + 1] == [s[0]] + s[1..][..i];
      i + 1
  }

  /** The index, built once from the folder listing and never changed. */
  class Portfolio {
    const elements: seq<Element>

    ghost predicate Valid()
    {
      UniqueIdentifiers(elements) &&
      forall k | 0 <= k < |elements| :: !IsIgnored(elements[k].assetPath)
    }

    constructor (listing: Option<seq<Entry>>)
      ensures elements == Discover(listing)
      ensures Valid()
    {
      var found := DiscoverElements(listing);
      elements := found;
      if listing.Some? {
        ScanUnique(listing.value);
        ScanOnlyAssets(listing.value);
      }
    }

    /** `get_elements`. */
    function GetElements(): (r: seq<Element>)
      requires Valid()
      ensures r == elements && UniqueIdentifiers(r)
      ensures forall k | 0 <= k < |r| :: !IsIgnored(r[k].assetPath)
    {
      elements
    }

    /** `get_element_before`: the element preceding the first occurrence of `e`;
        `None` for the first element. */
    function GetElementBefore(e: Element): (r: Option<Element>)
      requires e in elements
      ensures r.None? <==> elements[0] == e
      ensures r.Some? ==> exists i | 0 < i < |elements| ::
        elements[i] == e && e !in elements[..i] && r.value == elements[i - 1]
    {
      var i := IndexOf(elements, e);
      if i == 0 then None else Some(elements[i - 1])
    }

    /** `get_element_after`: the element following the first occurrence of `e`;
        `None` when that occurrence is the last element. */
    function GetElementAfter(e: Element): (r: Option<Element>)
      requires e in elements
      ensures r.None? <==> elements[|elements| - 1] == e && e !in elements[..|elements| - 1]
      ensures r.Some? ==> exists i | 0 <= i < |elements| - 1 ::
        elements[i] == e && e !in elements[..i] && r.value == elements[i + 1]
    {
      var i := IndexOf(elements, e);
      if i == |elements| - 1 then None else Some(elements[i + 1])
    }

    /** In a valid index, stepping back and then forward returns to `e`. */
    lemma AfterOfBefore(e: Element)
      requires Valid() && e in elements
      requires GetElementBefore(e).Some?
      ensures GetElementBefore(e).value in elements
      ensures GetElementAfter(GetElementBefore(e).value) == Some(e)
    {
      var i := IndexOf(elements, e);
      var p := elements[i - 1];
      assert forall j | 0 <= j < i - 1 :: elements[j] != p by {
        forall j | 0 <= j < i - 1 ensures elements[j] != p {
          assert elements[j].Identifier() != elements[i - 1].Identifier();
        }
      }
      assert IndexOf(elements, p) == i - 1;
    }

    /** In a valid index, stepping forward and then back returns to `e`. */
    lemma BeforeOfAfter(e: Element)
      requires Valid() && e in elements
      requires GetElementAfter(e).Some?
      ensures GetElementAfter(e).value in elements
      ensures GetElementBefore(GetElementAfter(e).value) == Some(e)
    {
      var i := IndexOf(elements, e);
      var n := elements[i + 1];
      assert forall j | 0 <= j < i + 1 :: elements[j] != n by {
        forall j | 0 <= j < i + 1 ensures elements[j] != n {
          assert elements[j].Identifier() != elements[i + 1].Identifier();
        }
      }
      assert IndexOf(elements, n) == i + 1;
    }

    /** `get_element_by_identifier`. */
    method GetElementByIdentifier(id: string) returns (r: Option<Element>)
      ensures r == Lookup(elements, id)
    {
      r := FindByIdentifier(elements, id);
    }

    /** `get_element_by_asset_path`: despite its name it compares the argument
        with each element's identifier, so it answers as the identifier lookup. */
    method GetElementByAssetPath(path: string) returns (r: Option<Element>)
      ensures r == Lookup(elements, path)
    {
      r := GetElementByIdentifier(path);
    }
  }

  /** In an index with unique identifiers, looking up an element's identifier
      finds that element. */
  lemma LookupFindsElement(elems: seq<Element>, k: nat)
    requires UniqueIdentifiers(elems) && k < |elems|
    ensures Lookup(elems, elems[k].Identifier()) == Some(elems[k])
  {
    var id := elems[k].Identifier();
    assert HasIdentifier(elems, id);
    var r := Lookup(elems, id);
    var k' :| 0 <= k' < |elems| && elems[k'] == r.value;
    assert elems[k'].Identifier() == id;
    assert k' == k;
  }

  /** The discovery as written: the collision scan reads a list that is still
      empty while files are processed, so every candidate is kept. */
  function ScanAsWritten(files: seq<Entry>): seq<Element>
  {
    if |files| == 0 then []
    else
      var last := files[|files| - 1];
      var collision := Lookup([], IdOf(last));
      ScanAsWritten(files[..|files| - 1]) +
        (if IsCandidate(last) && collision.None? then [Element(last.name)] else [])
  }

  /** No two candidates of the listing share an identifier. */
  predicate DistinctCandidateIds(files: seq<Entry>)
  {
    forall i, j | 0 <= i < j < |files| && IsCandidate(files[i]) && IsCandidate(files[j]) ::
      IdOf(files[i]) != IdOf(files[j])
  }

  /** Without colliding identifiers, the discovery as written and the
      first-wins discovery give the same index. */
  lemma {:induction false} ScanAsWrittenAgrees(files: seq<Entry>)
    requires DistinctCandidateIds(files)
    ensures ScanAsWritten(files) == Scan(files)
  {
    if |files| > 0 {
      var init := files[..|files| - 1];
      var last := files[|files| - 1];
      assert forall j | 0 <= j < |init| :: init[j] == files[j];
      assert DistinctCandidateIds(init);
      ScanAsWrittenAgrees(init);
      ScanIdentifiers(init, IdOf(last));
      if IsCandidate(last) {
        assert !ListsIdentifier(init, IdOf(last));
      }
    }
  }

  /** As written, `photo.jpg` and `photo.png` both enter the index with the same
      identifier `photo`; the first-wins discovery keeps `photo.jpg` only. */
  lemma CollisionAsWritten()
    ensures var files := [Entry("photo.jpg", true), Entry("photo.png", true)];
      |ScanAsWritten(files)| == 2 &&
      ScanAsWritten(files)[0].Identifier() == ScanAsWritten(files)[1].Identifier() &&
      !UniqueIdentifiers(ScanAsWritten(files)) &&
      Scan(files) == [Element("photo.jpg")]
  {
    var f1, f2 := Entry("photo.jpg", true), Entry("photo.png", true);
    PhotoIdentifiers();
    IgnoredExtensionsAre(f1.name);
    IgnoredExtensionsAre(f2.name);
    assert !EndsWith(f1.name, ".md") && !EndsWith(f1.name, ".txt");
    assert !EndsWith(f2.name, ".md") && !EndsWith(f2.name, ".txt");
    CollidingPair(f1, f2);
  }

  /** Two candidates with the same identifier: as written both are kept, the
      first-wins discovery keeps the first. */
  lemma CollidingPair(f1: Entry, f2: Entry)
    requires IsCandidate(f1) && IsCandidate(f2) && IdOf(f1) == IdOf(f2)
    ensures ScanAsWritten([f1, f2]) == [Element(f1.name), Element(f2.name)]
    ensures Scan([f1, f2]) == [Element(f1.name)]
  {
    var files := [f1, f2];
    assert files[..1] == [f1] && [f1][..0] == [];
    assert ScanAsWritten([f1]) == [Element(f1.name)];
    assert Scan([f1]) == [Element(f1.name)];
    assert HasIdentifier([Element(f1.name)], IdOf(f2)) by {
      assert [Element(f1.name)][0].Identifier() == IdOf(f2);
    }
  }

  lemma PhotoIdentifiers()
    ensures Element("photo.jpg").Identifier() == "photo"
    ensures Element("photo.png").Identifier() == "photo"
  {
    IdentifierDropsLastExtension();
    var b := "photo.png";
    LastSeparatorAndDot(b, -1, 5);
    assert b[0] != '.' && b[..5] == "photo";
  }
}
