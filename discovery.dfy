/**
 * Filer discovery (`get_ciks_from_xml`): every entry link of the Atom feed
 * of recent filings names its filer in segment 6 of the link split on
 * `'/'`; the filer ids are gathered into a set. The feed's XML decoding is
 * not modelled: the entry links' `href` values are the input.
 */
module Discovery {
  import opened Wrappers
  import Text

  /** The index, among the `'/'`-separated segments of an entry link, of the filer id. */
  const FilerSegment := 6

  predicate HasFilerSegment(href: string)
  {
    |Text.Split(href, '/')| > FilerSegment
  }

  function FilerIdOf(href: string): string
    requires HasFilerSegment(href)
  {
    Text.Split(href, '/')[FilerSegment]
  }

  /**
   * `get_ciks_from_xml` on the feed's link hrefs: `None` where
   * `href.split('/')[6]` raises `IndexError` for some href, else the set of
   * filer ids, each id once however many links name it.
   */
  function CiksFromHrefs(hrefs: seq<string>): (r: Option<set<string>>)
    ensures r.Some? <==> forall i :: 0 <= i < |hrefs| ==> HasFilerSegment(hrefs[i])
    ensures r.Some? ==> forall c :: c in r.value <==>
      exists i :: 0 <= i < |hrefs| && HasFilerSegment(hrefs[i]) && FilerIdOf(hrefs[i]) == c
  {
    if forall i :: 0 <= i < |hrefs| ==> HasFilerSegment(hrefs[i]) then
      Some(set i | 0 <= i < |hrefs| :: FilerIdOf(hrefs[i]))
    else None
  }

  /** There are never more filer ids than links. */
  lemma {:induction false} CiksAtMostHrefs(hrefs: seq<string>)
    requires CiksFromHrefs(hrefs).Some?
    ensures |CiksFromHrefs(hrefs).value| <= |hrefs|
  {
    if hrefs != [] {
      var init := hrefs[..|hrefs| - 1];
      assert forall i :: 0 <= i < |init| ==> init[i] == hrefs[i];
      CiksAtMostHrefs(init);
      assert CiksFromHrefs(hrefs).value == CiksFromHrefs(init).value + {FilerIdOf(hrefs[|hrefs| - 1])};
    }
  }

  /** A link repeated in the feed adds no filer id: duplicates collapse. */
  lemma RepeatedHrefCollapses(hrefs: seq<string>, href: string)
    requires href in hrefs
    ensures CiksFromHrefs(hrefs + [href]) == CiksFromHrefs(hrefs)
  {
    var longer := hrefs + [href];
    assert forall i :: 0 <= i < |hrefs| ==> longer[i] == hrefs[i];
    var k :| 0 <= k < |hrefs| && hrefs[k] == href;
    assert longer[|hrefs|] == hrefs[k];
    if CiksFromHrefs(hrefs).Some? {
      assert CiksFromHrefs(longer).Some?;
      assert CiksFromHrefs(longer).value == CiksFromHrefs(hrefs).value;
    } else {
      var bad :| 0 <= bad < |hrefs| && !HasFilerSegment(hrefs[bad]);
      assert !HasFilerSegment(longer[bad]);
    }
  }
}
