/** The older `ExpStim` class of ExpStim.py: the same category defaulting
    without sorting, and a `scan_categories` without the rejection rule. */
module LegacyStim {
  import opened Results
  import opened Seqs
  import opened Strings

  datatype ExpStim = ExpStim(
    path: string,
    categories: seq<string>,
    subsets: Option<seq<seq<string>>>,
    prerands: Option<seq<seq<string>>>)

  /** `scan_categories` on the listing `files`: exactly the distinct name
      heads, each once, in an unspecified order. */
  function ScanCategories(files: seq<string>): (r: seq<string>)
    ensures Distinct(r)
    ensures forall c :: c in r <==> c in HeadSet(files)
    ensures |r| == |HeadSet(files)|
  {
    assert Elements(Prefixes(files)) == HeadSet(files);
    Dedupe(Prefixes(files))
  }

  /** `ExpStim(path, categories)`: a non-empty category list is stored as
      given; `None` or `[]` falls back to scanning the listing. */
  function New(path: string, categories: Option<seq<string>>, listing: seq<string>): (s: ExpStim)
    ensures s.path == path && s.subsets.None? && s.prerands.None?
    ensures categories.Some? && |categories.value| > 0 ==> s.categories == categories.value
    ensures categories.None? || categories.value == [] ==> s.categories == ScanCategories(listing)
  {
    var cats := if categories.Some? && |categories.value| > 0 then categories.value
                else ScanCategories(listing);
    ExpStim(path, cats, None, None)
  }
}
