/** The `ExpStim` class of core.py: its constructor's category defaulting
    and `_scan_categories`, which infers category names from a directory
    listing of files named `<category>_<number>`. The listing is an input. */
module CoreStim {
  import opened Results
  import opened Seqs
  import opened Strings
  import CoreSets

  /** The object's attributes. `subsets` and `prerands` stand for the
      partition and the prerandomizations once they are requested. */
  datatype ExpStim = ExpStim(
    path: string,
    categories: Option<seq<string>>,
    subsets: Option<seq<CoreSets.Subset>>,
    prerands: Option<seq<seq<string>>>)

  /** `_scan_categories` on the listing `files`: the distinct name heads,
      unless there is one per file or more than `len(files) // 2` of them.
      The list comes from a `set`, so only its contents are promised. */
  function ScanCategories(files: seq<string>): (r: Option<seq<string>>)
    ensures r.Some? <==> |files| > 0 && 2 * |HeadSet(files)| <= |files|
    ensures Distinct(Prefixes(files)) ==> r.None?
    ensures r.Some? ==> Distinct(r.value)
    ensures r.Some? ==> forall c :: c in r.value <==> c in HeadSet(files)
  {
    var cats := Dedupe(Prefixes(files));
    assert Elements(Prefixes(files)) == HeadSet(files);
    if |cats| == |files| || |cats| > |files| / 2 then None else Some(cats)
  }

  /** `ExpStim(path, categories)`: a non-empty category list is stored
      sorted; `None` or `[]` falls back to scanning the listing. */
  function New(path: string, categories: Option<seq<string>>, listing: seq<string>): (s: ExpStim)
    ensures s.path == path && s.subsets.None? && s.prerands.None?
    ensures categories.Some? && |categories.value| > 0 ==>
              && s.categories.Some?
              && Sorted(s.categories.value)
              && multiset(s.categories.value) == multiset(categories.value)
    ensures categories.None? || categories.value == [] ==> s.categories == ScanCategories(listing)
  {
    var cats := if categories.Some? && |categories.value| > 0 then Some(Sort(categories.value))
                else ScanCategories(listing);
    ExpStim(path, cats, None, None)
  }
}
