/** The link filter of the listing page: keep the non-empty hrefs that carry
    today's or yesterday's date segment, each once, in order of first
    appearance, and stop once the cap is reached. */
module LinkCollector {
  import opened Wrappers
  import opened Sequences
  import opened Strings

  /** The cap `process_articles` passes when it collects links. */
  const DefaultMaxLinks := 10

  /** The path segment `/opinion/<date>/` that marks an article of that date. */
  function DateSegment(date: string): string {
    "/opinion/" + date + "/"
  }

  /** The href carries one of the two allowed date segments. */
  predicate MatchesAllowedDate(href: string, today: string, yesterday: string) {
    Contains(href, DateSegment(today)) || Contains(href, DateSegment(yesterday))
  }

  /** The href is non-empty and carries an allowed date segment. */
  predicate Qualifies(href: string, today: string, yesterday: string) {
    href != "" && MatchesAllowedDate(href, today, yesterday)
  }

  /** Every qualifying href of the listing, as a set. */
  ghost function QualifyingHrefs(hrefs: seq<Option<string>>, today: string, yesterday: string): set<string> {
    set i | 0 <= i < |hrefs| && hrefs[i].Some? && Qualifies(hrefs[i].value, today, yesterday) :: hrefs[i].value
  }

  /** The qualifying hrefs of the listing, each once, in order of first appearance. */
  function UniqueQualifying(hrefs: seq<Option<string>>, today: string, yesterday: string): seq<string>
  {
    if hrefs == [] then []
    else
      var u := UniqueQualifying(hrefs[..|hrefs| - 1], today, yesterday);
      var h := hrefs[|hrefs| - 1];
      if h.Some? && Qualifies(h.value, today, yesterday) && h.value !in u then u + [h.value] else u
  }

  /** The number of links after which collection stops; the cap is checked only
      after a link is kept, so a cap below one still lets one link through. */
  function Cap(maxLinks: int): nat {
    if maxLinks < 1 then 1 else maxLinks
  }

  /** What collection returns for a listing. */
  function CollectedLinks(hrefs: seq<Option<string>>, today: string, yesterday: string, maxLinks: int): seq<string> {
    Take(UniqueQualifying(hrefs, today, yesterday), Cap(maxLinks))
  }

  /** Scans the hrefs of the listing's anchors (`None` for an anchor without an
      href) and keeps the qualifying, not yet seen ones until `maxLinks` are kept.
      A listing on which no anchor appears in time is the empty sequence. */
  method GetArticleLinks(hrefs: seq<Option<string>>, today: string, yesterday: string, maxLinks: int)
    returns (links: seq<string>)
    ensures links == CollectedLinks(hrefs, today, yesterday, maxLinks)
  {
    links := [];
    var seen: set<string> := {};
    var i := 0;
    while i < |hrefs|
      invariant 0 <= i <= |hrefs|
      invariant links == UniqueQualifying(hrefs[..i], today, yesterday)
      invariant forall x :: x in seen <==> x in links
      invariant |links| < Cap(maxLinks)
    {
      assert hrefs[..i + 1][..i] == hrefs[..i];
      var href := hrefs[i];
      if href.Some? && href.value != "" && href.value !in seen && MatchesAllowedDate(href.value, today, yesterday) {
        seen := seen + {href.value};
        links := links + [href.value];
        if |links| >= maxLinks {
          UniqueQualifyingPrefix(hrefs, i + 1, today, yesterday);
          return;
        }
      }
      i := i + 1;
    }
    assert hrefs[..i] == hrefs;
  }

  /** The unique qualifying hrefs of a prefix of the listing are a prefix of those of the whole listing. */
  lemma {:induction false} UniqueQualifyingPrefix(hrefs: seq<Option<string>>, k: nat, today: string, yesterday: string)
    requires k <= |hrefs|
    ensures var p := UniqueQualifying(hrefs[..k], today, yesterday);
      |p| <= |UniqueQualifying(hrefs, today, yesterday)| && p == UniqueQualifying(hrefs, today, yesterday)[..|p|]
    decreases |hrefs|
  {
    if k < |hrefs| {
      var init := hrefs[..|hrefs| - 1];
      UniqueQualifyingPrefix(init, k, today, yesterday);
      assert init[..k] == hrefs[..k];
    } else {
      assert hrefs[..k] == hrefs;
    }
  }

  /** A string is among the unique qualifying hrefs exactly when it is a
      qualifying href of the listing. */
  lemma {:induction false} UniqueQualifyingMembers(hrefs: seq<Option<string>>, today: string, yesterday: string)
    ensures forall x :: x in UniqueQualifying(hrefs, today, yesterday) <==> Some(x) in hrefs && Qualifies(x, today, yesterday)
  {
    if hrefs != [] {
      var init := hrefs[..|hrefs| - 1];
      UniqueQualifyingMembers(init, today, yesterday);
      assert hrefs == init + [hrefs[|hrefs| - 1]];
    }
  }

  /** No href is kept twice. */
  lemma {:induction false} UniqueQualifyingDistinct(hrefs: seq<Option<string>>, today: string, yesterday: string)
    ensures Distinct(UniqueQualifying(hrefs, today, yesterday))
  {
    if hrefs != [] {
      UniqueQualifyingDistinct(hrefs[..|hrefs| - 1], today, yesterday);
    }
  }

  /** Of two kept hrefs, the earlier one first appears earlier in the listing. */
  lemma {:induction false} FirstSeenOrderPair(hrefs: seq<Option<string>>, today: string, yesterday: string, i: nat, j: nat)
    requires i < j < |UniqueQualifying(hrefs, today, yesterday)|
    ensures Some(UniqueQualifying(hrefs, today, yesterday)[i]) in hrefs
    ensures Some(UniqueQualifying(hrefs, today, yesterday)[j]) in hrefs
    ensures FirstIndex(hrefs, Some(UniqueQualifying(hrefs, today, yesterday)[i]))
      < FirstIndex(hrefs, Some(UniqueQualifying(hrefs, today, yesterday)[j]))
  {
    var init, h := hrefs[..|hrefs| - 1], hrefs[|hrefs| - 1];
    var u0 := UniqueQualifying(init, today, yesterday);
    var u := UniqueQualifying(hrefs, today, yesterday);
    assert hrefs == init + [h];
    UniqueQualifyingMembers(init, today, yesterday);
    assert u[i] == u0[i];
    FirstIndexAppend(init, [h], Some(u0[i]));
    if j < |u0| {
      assert u[j] == u0[j];
      FirstSeenOrderPair(init, today, yesterday, i, j);
      FirstIndexAppend(init, [h], Some(u0[j]));
    } else {
      assert u == u0 + [h.value];
      FirstIndexAtEnd(init, h);
    }
  }

  /** The kept hrefs come in the order in which they first appear in the listing. */
  lemma UniqueQualifyingFirstSeenOrder(hrefs: seq<Option<string>>, today: string, yesterday: string)
    ensures forall i :: 0 <= i < |UniqueQualifying(hrefs, today, yesterday)| ==>
      Some(UniqueQualifying(hrefs, today, yesterday)[i]) in hrefs
    ensures forall i, j :: 0 <= i < j < |UniqueQualifying(hrefs, today, yesterday)| ==>
      FirstIndex(hrefs, Some(UniqueQualifying(hrefs, today, yesterday)[i]))
        < FirstIndex(hrefs, Some(UniqueQualifying(hrefs, today, yesterday)[j]))
  {
    UniqueQualifyingMembers(hrefs, today, yesterday);
    var u := UniqueQualifying(hrefs, today, yesterday);
    forall i, j | 0 <= i < j < |u|
      ensures FirstIndex(hrefs, Some(u[i])) < FirstIndex(hrefs, Some(u[j]))
    {
      FirstSeenOrderPair(hrefs, today, yesterday, i, j);
    }
  }

  /** There are as many unique qualifying hrefs as there are distinct qualifying hrefs. */
  lemma UniqueQualifyingCount(hrefs: seq<Option<string>>, today: string, yesterday: string)
    ensures |UniqueQualifying(hrefs, today, yesterday)| == |QualifyingHrefs(hrefs, today, yesterday)|
  {
    var u := UniqueQualifying(hrefs, today, yesterday);
    UniqueQualifyingDistinct(hrefs, today, yesterday);
    UniqueQualifyingMembers(hrefs, today, yesterday);
    DistinctCardinality(u);
    assert (set x | x in u) == QualifyingHrefs(hrefs, today, yesterday);
  }

  /** Every collected link is a non-empty href of the listing that carries
      today's or yesterday's date segment. */
  lemma CollectedLinksQualify(hrefs: seq<Option<string>>, today: string, yesterday: string, maxLinks: int)
    ensures forall l :: l in CollectedLinks(hrefs, today, yesterday, maxLinks) ==>
      && Some(l) in hrefs
      && l != ""
      && (Contains(l, DateSegment(today)) || Contains(l, DateSegment(yesterday)))
  {
    UniqueQualifyingMembers(hrefs, today, yesterday);
  }

  /** The collected links are pairwise distinct and in order of first appearance. */
  lemma CollectedLinksDistinctInOrder(hrefs: seq<Option<string>>, today: string, yesterday: string, maxLinks: int)
    ensures var links := CollectedLinks(hrefs, today, yesterday, maxLinks);
      && Distinct(links)
      && (forall i :: 0 <= i < |links| ==> Some(links[i]) in hrefs)
      && (forall i, j :: 0 <= i < j < |links| ==> FirstIndex(hrefs, Some(links[i])) < FirstIndex(hrefs, Some(links[j])))
  {
    var u := UniqueQualifying(hrefs, today, yesterday);
    var links := CollectedLinks(hrefs, today, yesterday, maxLinks);
    UniqueQualifyingDistinct(hrefs, today, yesterday);
    UniqueQualifyingFirstSeenOrder(hrefs, today, yesterday);
    forall i, j | 0 <= i < j < |links|
      ensures FirstIndex(hrefs, Some(links[i])) < FirstIndex(hrefs, Some(links[j]))
    {
      assert links[i] == u[i] && links[j] == u[j];
    }
    forall i | 0 <= i < |links|
      ensures Some(links[i]) in hrefs
    {
      assert links[i] == u[i];
    }
  }

  /** At most `maxLinks` links are collected (one when `maxLinks` is below one),
      and exactly that many when the listing has enough distinct qualifying hrefs. */
  lemma CollectedLinksBound(hrefs: seq<Option<string>>, today: string, yesterday: string, maxLinks: int)
    ensures var n := |CollectedLinks(hrefs, today, yesterday, maxLinks)|;
      var q := |QualifyingHrefs(hrefs, today, yesterday)|;
      && (maxLinks >= 1 ==> n <= maxLinks)
      && n == if q <= Cap(maxLinks) then q else Cap(maxLinks)
  {
    UniqueQualifyingCount(hrefs, today, yesterday);
  }

  /** When the listing has no more distinct qualifying hrefs than the cap, every one of them is collected. */
  lemma CollectedLinksComplete(hrefs: seq<Option<string>>, today: string, yesterday: string, maxLinks: int)
    requires |QualifyingHrefs(hrefs, today, yesterday)| <= Cap(maxLinks)
    ensures forall h :: Some(h) in hrefs && Qualifies(h, today, yesterday) ==> h in CollectedLinks(hrefs, today, yesterday, maxLinks)
  {
    UniqueQualifyingCount(hrefs, today, yesterday);
    UniqueQualifyingMembers(hrefs, today, yesterday);
  }
}
