/**
 * Navigation of src/App.tsx: the nine page ids, the reading of a URL
 * fragment (`location.hash`) back into a page id, and the page state the
 * hash listener maintains.
 */
module Pages {
  import opened Wrappers

  /** The `id`s of `PAGES`, in navigation order. */
  const PageIds: seq<string> :=
    ["summary", "research", "teaching", "experience", "education",
     "achievements", "service", "references", "contact"]

  /** The page shown before any fragment has been read. */
  const DefaultPage: string := "summary"

  predicate IsPageId(s: string) {
    s in PageIds
  }

  /** One leading `#` is removed, no more. */
  function StripHash(h: string): (r: string)
    ensures |h| > 0 && h[0] == '#' ==> h == "#" + r
    ensures !(|h| > 0 && h[0] == '#') ==> r == h
  {
    if |h| > 0 && h[0] == '#' then h[1..] else h
  }

  /** `toLowerCase` on one character, for the ASCII letters. */
  function LowerChar(c: char): (d: char)
    ensures 'A' <= c <= 'Z' ==> d as int == c as int + 32
    ensures !('A' <= c <= 'Z') ==> d == c
  {
    if 'A' <= c <= 'Z' then (c as int + 32) as char else c
  }

  function AsciiLower(s: string): (r: string)
    ensures |r| == |s|
    ensures forall k | 0 <= k < |s| :: r[k] == LowerChar(s[k])
  {
    if s == [] then [] else [LowerChar(s[0])] + AsciiLower(s[1..])
  }

  /** Reads a fragment as a page id: strip one `#`, lower-case, accept only a known id. */
  function FromHash(h: string): (r: Option<string>)
    ensures r.Some? ==> IsPageId(r.value)
    ensures r.Some? <==> IsPageId(AsciiLower(StripHash(h)))
    ensures r.Some? ==> r.value == AsciiLower(StripHash(h))
  {
    var clean := AsciiLower(StripHash(h));
    if IsPageId(clean) then Some(clean) else None
  }

  /** The fragment written for a page, `#${page}`. */
  function PageHash(page: string): (h: string)
    ensures |h| == |page| + 1 && h[0] == '#' && h[1..] == page
  {
    "#" + page
  }

  /** The page after a `hashchange`: a recognised fragment switches page, anything else keeps it. */
  function OnHashChange(page: string, h: string): (next: string)
    ensures FromHash(h).Some? ==> next == FromHash(h).value
    ensures FromHash(h).None? ==> next == page
  {
    match FromHash(h)
    case Some(p) => p
    case None => page
  }

  /** The page after mounting: the default, unless the initial fragment names a page. */
  function InitialPage(h: string): (page: string)
    ensures IsPageId(page)
    ensures FromHash(h).Some? ==> page == FromHash(h).value
    ensures FromHash(h).None? ==> page == DefaultPage
  {
    OnHashChange(DefaultPage, h)
  }

  /** Lower-case ASCII letters only. */
  predicate LowerLetters(s: string) {
    forall k | 0 <= k < |s| :: 'a' <= s[k] <= 'z'
  }

  /** Every page id is a non-empty word of lower-case letters. */
  lemma PageIdShape(id: string)
    requires IsPageId(id)
    ensures |id| > 0 && LowerLetters(id)
  {
  }

  lemma LowerLettersAreFixed(s: string)
    requires LowerLetters(s)
    ensures AsciiLower(s) == s
  {
  }

  /** Page ids are already lower-case, so lower-casing leaves them alone. */
  lemma PageIdsAreLowerCase(id: string)
    requires IsPageId(id)
    ensures AsciiLower(id) == id
  {
    PageIdShape(id);
    LowerLettersAreFixed(id);
  }

  /** Reading back the fragment written for a page yields that page. */
  lemma HashRoundTrip(id: string)
    requires IsPageId(id)
    ensures FromHash(PageHash(id)) == Some(id)
  {
    PageIdsAreLowerCase(id);
  }

  /** A bare id, without `#`, is read as well. */
  lemma BareIdIsRead(id: string)
    requires IsPageId(id)
    ensures FromHash(id) == Some(id)
  {
    PageIdShape(id);
    assert StripHash(id) == id;
    LowerLettersAreFixed(id);
  }

  /** Every recognised fragment is the written fragment of its page, up to letter case and the `#`. */
  lemma ReadIsInverseOfWrite(h: string)
    requires FromHash(h).Some?
    ensures AsciiLower(StripHash(h)) == PageHash(FromHash(h).value)[1..]
  {
  }

  /** Letter case does not matter: a fragment and its lower-cased form are read alike. */
  lemma FromHashIgnoresCase(h: string)
    ensures FromHash(AsciiLower(h)) == FromHash(h)
  {
    var l := AsciiLower(h);
    if |h| > 0 && h[0] == '#' {
      assert StripHash(l) == AsciiLower(StripHash(h));
    } else {
      assert StripHash(l) == l;
    }
    assert forall k | 0 <= k < |l| :: LowerChar(l[k]) == l[k];
    assert AsciiLower(StripHash(l)) == AsciiLower(StripHash(h));
  }

  /** No page id begins with `#`, so a doubled `#` is never a page. */
  lemma DoubleHashIsRejected(rest: string)
    ensures FromHash("##" + rest) == None
  {
    var clean := AsciiLower(StripHash("##" + rest));
    assert clean[0] == '#';
    assert forall id | IsPageId(id) :: id[0] != '#';
  }

  /** The page the listener holds is always one of the nine ids. */
  lemma OnHashChangeKeepsPageId(page: string, h: string)
    requires IsPageId(page)
    ensures IsPageId(OnHashChange(page, h))
  {
  }

  /**
   * Writing back `#${page}` for the page just shown and then reading that
   * fragment leaves the page unchanged, so the hash and the page state
   * agree after one round and do not alternate.
   */
  lemma WriteBackIsStable(page: string, h: string)
    requires IsPageId(page)
    ensures OnHashChange(OnHashChange(page, h), PageHash(OnHashChange(page, h))) == OnHashChange(page, h)
  {
    OnHashChangeKeepsPageId(page, h);
    HashRoundTrip(OnHashChange(page, h));
  }

  /** A fragment that lower-cases letter by letter to `#` and a page id selects that page. */
  lemma FragmentOfAnyCase(h: string, id: string)
    requires IsPageId(id)
    requires |h| == |id| + 1 && h[0] == '#'
    requires forall k | 0 <= k < |id| :: LowerChar(h[k + 1]) == id[k]
    ensures FromHash(h) == Some(id)
  {
    assert AsciiLower(StripHash(h)) == id;
  }

  /** A capitalised fragment, as typed by hand, selects the page. */
  lemma CapitalisedFragment()
    ensures FromHash("#Teaching") == Some("teaching")
  {
    FragmentOfAnyCase("#Teaching", "teaching");
  }

  lemma BareResearch()
    ensures FromHash("research") == Some("research")
  {
    BareIdIsRead("research");
  }

  lemma DoubleHashSummary()
    ensures FromHash("##summary") == None
  {
    DoubleHashIsRejected("summary");
  }

  /** An unknown fragment is not a page (the listener then keeps the current page). */
  lemma UnknownFragment()
    ensures FromHash("#unknown") == None
  {
    assert StripHash("#unknown")[0] == 'u';
    assert forall id | IsPageId(id) :: id[0] != 'u';
  }
}
