/**
 * The converter grid of the home page (`app/page.jsx`): six converters, a
 * case-insensitive substring search over their titles and descriptions that
 * keeps the declared order, the "No converters found" condition, and the
 * lookup by key that the quick-convert dialog performs.
 */
module ConverterSearch {
  import opened Wrappers
  import opened JsText
  import opened Sequences

  /** One entry of the `converters` table (its icon is not modelled). */
  datatype Converter = Converter(key: string, title: string, desc: string)

  const Converters: seq<Converter> := [
    Converter("video-to-mp3", "Video \U{2192} MP3", "Extract audio from any video in seconds."),
    Converter("image-convert", "Image Converters", "PNG, JPG, WebP\U{2014}convert losslessly & in bulk (Pro)."),
    Converter("pdf-tools", "PDF Tools", "Merge, split, compress PDFs with precision."),
    Converter("audio-tools", "Audio Tools", "Trim, normalize, and convert between popular formats."),
    Converter("clip-trim", "Clip & Trim", "Cut videos to the exact moment with frame accuracy."),
    Converter("api-access", "API Access", "Automate conversions with secure API keys (Pro).")
  ]

  // ---------------------------------------------------------------------------
  // Order-preserving filtering
  // ---------------------------------------------------------------------------

  /** `cs.filter(keep)`. */
  function Filter(cs: seq<Converter>, keep: Converter -> bool): (r: seq<Converter>)
    ensures forall c :: c in r <==> c in cs && keep(c)
    ensures IsSubsequence(r, cs)
  {
    if cs == [] then []
    else
      var rest := Filter(cs[1..], keep);
      if keep(cs[0]) then [cs[0]] + rest
      else
        SubsequenceOfTail(rest, cs);
        rest
  }

  /** Filters that agree on every element give the same list. */
  lemma {:induction false} FilterCongruent(cs: seq<Converter>, p: Converter -> bool, q: Converter -> bool)
    requires forall c :: c in cs ==> p(c) == q(c)
    ensures Filter(cs, p) == Filter(cs, q)
  {
    if cs != [] {
      FilterCongruent(cs[1..], p, q);
    }
  }

  /** A filter that keeps everything returns the list unchanged. */
  lemma {:induction false} FilterKeepAll(cs: seq<Converter>, p: Converter -> bool)
    requires forall c :: c in cs ==> p(c)
    ensures Filter(cs, p) == cs
  {
    if cs != [] {
      FilterKeepAll(cs[1..], p);
    }
  }

  // ---------------------------------------------------------------------------
  // The search
  // ---------------------------------------------------------------------------

  /** The title or the description contains the search text, ignoring case. */
  function MatchesSearch(c: Converter, search: string): bool
  {
    Includes(ToLower(c.title), ToLower(search)) || Includes(ToLower(c.desc), ToLower(search))
  }

  /** The converters on the grid for a search text: all of them when it is empty. */
  function Visible(search: string): (r: seq<Converter>)
    ensures forall c :: c in r <==> c in Converters && (search == "" || MatchesSearch(c, search))
    ensures IsSubsequence(r, Converters)
    ensures |r| <= |Converters|
  {
    var r := Filter(Converters, c => search == "" || MatchesSearch(c, search));
    SubsequenceLength(r, Converters);
    r
  }

  /** The "No converters found" block: a non-empty search that matches no converter. */
  function NoResultsShown(search: string): bool
  {
    search != "" && |Filter(Converters, c => MatchesSearch(c, search))| == 0
  }

  lemma ConvertersDistinct()
    ensures Distinct(Converters)
    ensures forall i, j :: 0 <= i < j < |Converters| ==> Converters[i].key != Converters[j].key
  {
  }

  /** The grid for a search is exactly the matching converters in declared order. */
  lemma VisibleIsOrderedSelection(search: string, r: seq<Converter>)
    requires IsSubsequence(r, Converters)
    requires forall c :: c in r <==> c in Converters && (search == "" || MatchesSearch(c, search))
    ensures Visible(search) == r
  {
    ConvertersDistinct();
    SubsequenceDeterminedByMembers(Visible(search), r, Converters);
  }

  /** An empty search shows every converter in declared order. */
  lemma EmptySearchShowsAll()
    ensures Visible("") == Converters
  {
    FilterKeepAll(Converters, c => "" == "" || MatchesSearch(c, ""));
  }

  /** Searches with the same lower-case form show the same converters. */
  lemma SearchIgnoresCase(s1: string, s2: string)
    requires ToLower(s1) == ToLower(s2)
    ensures Visible(s1) == Visible(s2)
  {
    assert s1 == "" <==> s2 == "";
    FilterCongruent(Converters, c => s1 == "" || MatchesSearch(c, s1), c => s2 == "" || MatchesSearch(c, s2));
  }

  /** The empty-state block appears exactly when the search is non-empty and the grid is empty. */
  lemma NoResultsIffEmptyGrid(search: string)
    ensures NoResultsShown(search) <==> search != "" && Visible(search) == []
  {
    if search != "" {
      FilterCongruent(Converters, c => search == "" || MatchesSearch(c, search), c => MatchesSearch(c, search));
    }
  }

  // ---------------------------------------------------------------------------
  // The dialog's lookup by key
  // ---------------------------------------------------------------------------

  /** `cs.find(c => c.key === key)`: a converter with the key, or none when no converter has it. */
  function FindByKey(cs: seq<Converter>, key: string): (r: Option<Converter>)
    ensures r.Some? ==> r.value in cs && r.value.key == key
    ensures r.None? <==> forall c :: c in cs ==> c.key != key
  {
    if cs == [] then None
    else if cs[0].key == key then Some(cs[0])
    else FindByKey(cs[1..], key)
  }

  /** The converter found is the one at the first index holding the key. */
  lemma {:induction false} FindByKeyFirst(cs: seq<Converter>, key: string, i: nat)
    requires i < |cs| && cs[i].key == key
    requires forall j :: 0 <= j < i ==> cs[j].key != key
    ensures FindByKey(cs, key) == Some(cs[i])
  {
    if i > 0 {
      assert cs[1..][i - 1] == cs[i];
      FindByKeyFirst(cs[1..], key, i - 1);
    }
  }

  /** Keys are distinct, so the dialog's lookup finds the one converter with that key, or none. */
  lemma LookupIsUnique(key: string, c: Converter)
    requires c in Converters && c.key == key
    ensures FindByKey(Converters, key) == Some(c)
  {
    ConvertersDistinct();
    var i :| 0 <= i < |Converters| && Converters[i] == c;
    FindByKeyFirst(Converters, key, i);
  }
}
