/**
  The link normalisation of app/Button.tsx: the first occurrence of
  "https://" is removed from the given link (String.prototype.replace with a
  string pattern replaces one occurrence, wherever it is), the result is the
  link's displayed text, and "https://" in front of it is the link's target.
 */
module LinkButton {
  import opened Wrappers

  const Scheme := "https://"

  /** pat occurs in s at index i. */
  predicate OccursAt(s: string, pat: string, i: int) {
    0 <= i && i + |pat| <= |s| && s[i..i + |pat|] == pat
  }

  /** i is the first index where pat occurs in s. */
  predicate FirstOccurrence(s: string, pat: string, i: int) {
    OccursAt(s, pat, i) && forall j :: 0 <= j < i ==> !OccursAt(s, pat, j)
  }

  /** s.indexOf(pat, from): the first index at or after from where pat occurs. */
  function IndexOfFrom(s: string, pat: string, from: nat): (r: Option<nat>)
    decreases |s| - from
    ensures r.Some? ==> from <= r.value && OccursAt(s, pat, r.value)
    ensures r.Some? ==> forall j :: from <= j < r.value ==> !OccursAt(s, pat, j)
    ensures r.None? ==> forall j :: from <= j ==> !OccursAt(s, pat, j)
  {
    if from + |pat| > |s| then None
    else if s[from..from + |pat|] == pat then Some(from)
    else IndexOfFrom(s, pat, from + 1)
  }

  /** s.indexOf(pat): the first index where pat occurs. */
  function IndexOf(s: string, pat: string): (r: Option<nat>)
    ensures r.Some? ==> FirstOccurrence(s, pat, r.value)
    ensures r.None? ==> forall j :: !OccursAt(s, pat, j)
  {
    IndexOfFrom(s, pat, 0)
  }

  /** s.replace(pat, rep) with a string pattern: only the first occurrence is replaced. */
  function ReplaceFirst(s: string, pat: string, rep: string): (r: string)
    ensures (forall j :: !OccursAt(s, pat, j)) ==> r == s
    ensures forall i :: FirstOccurrence(s, pat, i) ==> r == s[..i] + rep + s[i + |pat|..]
    ensures IndexOf(s, pat).Some? ==> |r| == |s| - |pat| + |rep|
  {
    IndexOfFindsFirst(s, pat);
    match IndexOf(s, pat)
    case None => s
    case Some(i) => s[..i] + rep + s[i + |pat|..]
  }

  /** The text the button displays: the link with its first "https://" removed. */
  function LinkText(sitelink: string): (text: string)
    ensures (forall j :: !OccursAt(sitelink, Scheme, j)) ==> text == sitelink
    ensures forall i :: FirstOccurrence(sitelink, Scheme, i) ==> text == sitelink[..i] + sitelink[i + |Scheme|..]
    ensures |text| == |sitelink| || |text| == |sitelink| - |Scheme|
  {
    ReplaceFirst(sitelink, Scheme, "")
  }

  /** The button's target: "https://" followed by the displayed text. */
  function Site(sitelink: string): string {
    Scheme + LinkText(sitelink)
  }

  /** The target always starts with "https://". */
  lemma SiteHasScheme(sitelink: string)
    ensures |Site(sitelink)| >= |Scheme| && Site(sitelink)[..|Scheme|] == Scheme
  {
  }

  /** indexOf finds the first occurrence, and finds nothing only when there is none. */
  lemma IndexOfFindsFirst(s: string, pat: string)
    ensures forall i :: FirstOccurrence(s, pat, i) ==> IndexOf(s, pat) == Some(i)
    ensures (forall j :: !OccursAt(s, pat, j)) <==> IndexOf(s, pat) == None
  {
    match IndexOf(s, pat)
    case None =>
    case Some(k) =>
      assert FirstOccurrence(s, pat, k);
  }

  /** A link without "https://" is displayed as it is. */
  lemma LinkTextWithoutScheme(sitelink: string)
    requires forall j :: !OccursAt(sitelink, Scheme, j)
    ensures LinkText(sitelink) == sitelink
  {
    IndexOfFindsFirst(sitelink, Scheme);
  }

  /**
    The displayed text is the link with exactly the first occurrence of
    "https://" cut out, wherever it stands.
   */
  lemma LinkTextRemovesFirstOccurrence(sitelink: string, i: nat)
    requires FirstOccurrence(sitelink, Scheme, i)
    ensures LinkText(sitelink) == sitelink[..i] + sitelink[i + |Scheme|..]
    ensures |LinkText(sitelink)| == |sitelink| - |Scheme|
  {
    IndexOfFindsFirst(sitelink, Scheme);
  }

  /** A link without "https://" gets it put in front. */
  lemma SiteWithoutScheme(sitelink: string)
    requires forall j :: !OccursAt(sitelink, Scheme, j)
    ensures Site(sitelink) == Scheme + sitelink
  {
    LinkTextWithoutScheme(sitelink);
  }

  /** A link that already starts with "https://" is its own target. */
  lemma SiteWithScheme(sitelink: string)
    requires |sitelink| >= |Scheme| && sitelink[..|Scheme|] == Scheme
    ensures Site(sitelink) == sitelink
  {
    assert FirstOccurrence(sitelink, Scheme, 0);
    assert LinkText(sitelink) == sitelink[|Scheme|..];
    assert Scheme + sitelink[|Scheme|..] == sitelink;
  }

  /** Normalising a normalised link changes nothing. */
  lemma SiteIdempotent(sitelink: string)
    ensures Site(Site(sitelink)) == Site(sitelink)
  {
    SiteHasScheme(sitelink);
    SiteWithScheme(Site(sitelink));
  }

  /** The occurrence removed need not be at the start: a scheme embedded later in the link is cut out. */
  lemma LinkTextCutsEmbeddedScheme()
    ensures LinkText("a.io/?to=https://b.io") == "a.io/?to=b.io"
  {
    var s := "a.io/?to=https://b.io";
    assert OccursAt(s, Scheme, 9);
    forall j | 0 <= j < 9 ensures !OccursAt(s, Scheme, j) {
      assert s[j] != 'h';
    }
    LinkTextRemovesFirstOccurrence(s, 9);
    assert s[..9] + s[17..] == "a.io/?to=b.io";
  }
}
