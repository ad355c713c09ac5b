/** The pure part of `ExpSets.create_subsets` in core.py: the two
    divisibility checks, the per-category filter, the chunking of each
    shuffled category list and the hand-out of chunk `i` to subset `i`.
    The directory listing is an input, and so is each category's shuffle:
    `shuffled[c]` is what `random.shuffle` left in the list of files of
    category `c`. */
module CoreSets {
  import opened Arith
  import opened Results
  import opened Seqs
  import opened Strings

  /** The exceptions `create_subsets` can raise before writing anything. */
  datatype SubsetError =
    | SetsNotDivisible(remaining: int)        // ValueError: file count not divisible by set_num
    | CategoriesMissing                       // TypeError: `len(None)`
    | CategoriesNotDivisible(remaining: int)  // ValueError: files_per_set not divisible by category count
    | DivisionByZero                          // ZeroDivisionError: set_num == 0, or no categories
    | ZeroChunkStep                           // ValueError: `range(0, n, 0)` when there are no files
    | ChunkMissing                            // IndexError: fewer chunks than subsets

  /** One entry of the `subsets` dict: its key and its file list. */
  datatype Subset = Subset(name: string, files: seq<string>)

  /** A multiple of `b` leaves no remainder. */
  lemma MultipleMod(b: int, q: int)
    requires b != 0
    ensures (b * q) % b == 0
  {
    var x := b * q;
    var t := q - x / b;
    assert x == b * (x / b) + x % b;
    assert b * t == x % b by {
      assert b * t == b * q - b * (x / b);
    }
  }

  /** Python's `a % b`: the remainder takes the sign of the divisor. It is
      written as repeated subtraction so that contracts mentioning it stay
      free of non-linear arithmetic; `PyModCongruent` relates it to `%`. */
  function PyMod(a: int, b: int): (r: int)
    requires b != 0
    ensures b > 0 ==> 0 <= r < b
    ensures b < 0 ==> b < r <= 0
    decreases (if b < 0 then 1 else 0), (if b < 0 then 0 else if a < 0 then b - a else a)
  {
    if b < 0 then -PyMod(-a, -b)
    else if a < 0 then PyMod(a + b, b)
    else if a >= b then PyMod(a - b, b)
    else a
  }

  /** `a % b` in Python differs from `a` by a multiple of `b`. */
  lemma {:induction false} PyModCongruent(a: int, b: int)
    requires b != 0
    ensures exists q :: a - PyMod(a, b) == q * b
    decreases (if b < 0 then 1 else 0), (if b < 0 then 0 else if a < 0 then b - a else a)
  {
    if b < 0 {
      PyModCongruent(-a, -b);
      var q :| -a - PyMod(-a, -b) == q * -b;
      MulNegate(q, b);
      assert a - PyMod(a, b) == q * b;
    } else if a < 0 {
      PyModCongruent(a + b, b);
      var q :| a + b - PyMod(a + b, b) == q * b;
      MulSucc(q - 1, b);
      assert a - PyMod(a, b) == (q - 1) * b;
    } else if a >= b {
      PyModCongruent(a - b, b);
      var q :| a - b - PyMod(a - b, b) == q * b;
      MulSucc(q, b);
      assert a - PyMod(a, b) == (q + 1) * b;
    } else {
      assert a - PyMod(a, b) == 0 * b;
    }
  }

  /** A whole number of `b`s leaves no remainder. */
  lemma {:induction false} PyModMultiple(q: nat, b: int)
    requires b >= 1
    ensures PyMod(q * b, b) == 0
    decreases q
  {
    if q > 0 {
      assert q * b - b == (q - 1) * b;
      PyModMultiple(q - 1, b);
    }
  }

  /** The listing without the names containing "subsets" (the output
      directory may sit inside the stimulus directory). */
  function StimFiles(listing: seq<string>): (r: seq<string>)
    ensures forall f :: multiset(r)[f] == (if Contains(f, "subsets") then 0 else multiset(listing)[f])
  {
    if |listing| == 0 then []
    else
      var rest := StimFiles(listing[1..]);
      assert listing == [listing[0]] + listing[1..];
      if Contains(listing[0], "subsets") then rest else [listing[0]] + rest
  }

  /** `[file for file in total_stim if category in file]`. */
  function CategoryFiles(total: seq<string>, category: string): (r: seq<string>)
    ensures forall f :: multiset(r)[f] == (if Contains(f, category) then multiset(total)[f] else 0)
  {
    if |total| == 0 then []
    else
      var rest := CategoryFiles(total[1..], category);
      assert total == [total[0]] + total[1..];
      if Contains(total[0], category) then [total[0]] + rest else rest
  }

  /** `[xs[n:n + k] for n in range(0, len(xs), k)]` for a positive `k`: the
      pieces join back to `xs`, and all but the last hold exactly `k`. */
  function Chunks<T>(xs: seq<T>, k: nat): (r: seq<seq<T>>)
    requires k >= 1
    ensures Flatten(r) == xs
    ensures forall i :: 0 <= i < |r| - 1 ==> |r[i]| == k
    ensures |r| > 0 ==> 1 <= |r[|r| - 1]| <= k
    ensures |r| == 0 <==> |xs| == 0
    decreases |xs|
  {
    if |xs| == 0 then []
    else if |xs| <= k then [xs]
    else
      var rest := Chunks(xs[k..], k);
      assert ([xs[..k]] + rest)[1..] == rest;
      assert xs == xs[..k] + xs[k..];
      [xs[..k]] + rest
  }

  /** `{"subset_" + str(i + 1): [] for i in range(set_num)}`, without the keys. */
  function EmptySubsets(setNum: int): (r: seq<seq<string>>)
    ensures |r| == (if setNum > 0 then setNum else 0)
    ensures forall i :: 0 <= i < |r| ==> r[i] == []
  {
    if setNum > 0 then seq(setNum, i => []) else []
  }

  /** One pass of the category loop: chunk the shuffled files of one
      category and extend subset `i` by chunk `i`. A non-positive step gives
      an empty `range`, a zero step a `ValueError`. */
  function AssignChunks(subsets: seq<seq<string>>, part: seq<string>, k: int): (r: Result<seq<seq<string>>, SubsetError>)
    ensures r.Success? ==> |r.value| == |subsets|
    ensures r.Success? ==> forall i :: 0 <= i < |subsets| ==> subsets[i] <= r.value[i]
  {
    if k == 0 then Failure(ZeroChunkStep)
    else
      var chunks := if k > 0 then Chunks(part, k) else [];
      if |chunks| < |subsets| then Failure(ChunkMissing)
      else Success(seq(|subsets|, i requires 0 <= i < |subsets| => subsets[i] + chunks[i]))
  }

  /** The category loop over the shuffled category lists, in category order. */
  function Distribute(subsets: seq<seq<string>>, parts: seq<seq<string>>, k: int): (r: Result<seq<seq<string>>, SubsetError>)
    ensures r.Success? ==> |r.value| == |subsets|
    decreases |parts|
  {
    if |parts| == 0 then Success(subsets)
    else
      match AssignChunks(subsets, parts[0], k)
      case Failure(e) => Failure(e)
      case Success(next) => Distribute(next, parts[1..], k)
  }

  /** The key `"subset_" + str(i + 1)` of subset `i` (counting from 0): the
      prefix `subset_` followed by digits that read back as `i + 1`. */
  function SubsetName(i: nat): (r: string)
    ensures |r| > 7 && r[..7] == "subset_"
    ensures forall k :: 7 <= k < |r| ==> '0' <= r[k] <= '9'
    ensures ParseDecimal(r[7..]) == i + 1
  {
    var digits := NatToString(i + 1);
    ParseNatToString(i + 1);
    var r := "subset_" + digits;
    assert r[7..] == digits;
    r
  }

  /** Attaches the dict keys `subset_1 .. subset_n` in insertion order. The
      keys are pairwise different, so the dict keeps every list. */
  function Named(lists: seq<seq<string>>): (r: seq<Subset>)
    ensures |r| == |lists|
    ensures forall i :: 0 <= i < |r| ==> r[i].files == lists[i] && r[i].name == SubsetName(i)
    ensures forall i, j :: 0 <= i < j < |r| ==> r[i].name != r[j].name
  {
    SubsetNamesAllDistinct(|lists|);
    seq(|lists|, i requires 0 <= i < |lists| => Subset(SubsetName(i), lists[i]))
  }

  /** What the caller's shuffles must be: for every category, some ordering
      of the files whose name contains it. */
  ghost predicate ShufflesFit(listing: seq<string>, categories: Option<seq<string>>, shuffled: seq<seq<string>>)
  {
    categories.Some? ==>
      && |shuffled| == |categories.value|
      && forall c :: 0 <= c < |shuffled| ==>
           multiset(shuffled[c]) == multiset(CategoryFiles(StimFiles(listing), categories.value[c]))
  }

  /** `create_subsets(set_num, categories)` on a directory listing, up to
      the point where the subsets are written out. */
  function CreateSubsets(listing: seq<string>, setNum: int, categories: Option<seq<string>>, shuffled: seq<seq<string>>): (r: Result<seq<Subset>, SubsetError>)
    requires ShufflesFit(listing, categories, shuffled)
    ensures setNum == 0 ==> r == Failure(DivisionByZero)
    ensures setNum != 0 && PyMod(|StimFiles(listing)|, setNum) != 0 ==>
              r == Failure(SetsNotDivisible(PyMod(|StimFiles(listing)|, setNum)))
    ensures setNum != 0 && PyMod(|StimFiles(listing)|, setNum) == 0 && categories.None? ==>
              r == Failure(CategoriesMissing)
    ensures setNum != 0 && PyMod(|StimFiles(listing)|, setNum) == 0 && categories == Some([]) ==>
              r == Failure(DivisionByZero)
    ensures r.Success? ==> setNum != 0 && categories.Some? && |categories.value| > 0
    ensures r.Success? ==> |r.value| == (if setNum > 0 then setNum else 0)
    ensures r.Success? ==> forall i :: 0 <= i < |r.value| ==> r.value[i].name == SubsetName(i)
  {
    var total := StimFiles(listing);
    if setNum == 0 then Failure(DivisionByZero)
    else if PyMod(|total|, setNum) != 0 then Failure(SetsNotDivisible(PyMod(|total|, setNum)))
    else
      var filesPerSet := |total| / setNum;
      match categories
      case None => Failure(CategoriesMissing)
      case Some(cats) =>
        if |cats| == 0 then Failure(DivisionByZero)
        else if PyMod(filesPerSet, |cats|) != 0 then Failure(CategoriesNotDivisible(PyMod(filesPerSet, |cats|)))
        else
          var perCat := filesPerSet / |cats|;
          match Distribute(EmptySubsets(setNum), shuffled, perCat)
          case Failure(e) => Failure(e)
          case Success(lists) => Success(Named(lists))
  }

  /** The second check: with the file count divisible by `set_num` and a
      non-empty category list, a `files_per_set` that the number of
      categories does not divide raises `ValueError` carrying Python's
      remainder. */
  lemma CategoriesNotDivisibleError(listing: seq<string>, setNum: int, cats: seq<string>, shuffled: seq<seq<string>>)
    requires ShufflesFit(listing, Some(cats), shuffled)
    requires setNum != 0 && PyMod(|StimFiles(listing)|, setNum) == 0 && |cats| > 0
    ensures PyMod(|StimFiles(listing)| / setNum, |cats|) != 0 ==>
              CreateSubsets(listing, setNum, Some(cats), shuffled)
              == Failure(CategoriesNotDivisible(PyMod(|StimFiles(listing)| / setNum, |cats|)))
    ensures CreateSubsets(listing, setNum, Some(cats), shuffled).Success? ==>
              PyMod(|StimFiles(listing)| / setNum, |cats|) == 0
  {
  }

  // ---------------------------------------------------------------------
  // Balance under exact counts

  /** A list of exactly `m * k` entries is cut into `m` pieces of `k`. */
  lemma {:induction false} ChunksExact<T>(xs: seq<T>, k: nat, m: nat)
    requires k >= 1 && |xs| == m * k
    ensures |Chunks(xs, k)| == m
    ensures forall i :: 0 <= i < m ==> |Chunks(xs, k)[i]| == k
    decreases m
  {
    if m == 1 {
      assert Chunks(xs, k) == [xs];
    } else if m > 1 {
      MulSucc(m - 1, k);
      MulMonotone(1, m - 1, k);
      ChunksExact(xs[k..], k, m - 1);
      assert Chunks(xs, k) == [xs[..k]] + Chunks(xs[k..], k);
    }
  }

  /** Cutting a full first piece off the front. */
  lemma ChunksCons<T>(a: seq<T>, b: seq<T>, k: nat)
    requires k >= 1 && |a| == k
    ensures Chunks(a + b, k) == [a] + Chunks(b, k)
  {
    if |b| > 0 {
      assert (a + b)[..k] == a;
      assert (a + b)[k..] == b;
    } else {
      assert a + b == a;
    }
  }

  /** Piece `i` of a list of exactly `m * k` files. */
  function PieceOf(xs: seq<string>, k: nat, m: nat, i: nat): (r: seq<string>)
    requires k >= 1 && |xs| == m * k && i < m
    ensures |r| == k
  {
    ChunksExact(xs, k, m);
    Chunks(xs, k)[i]
  }

  /** The files subset `i` receives when each of the `parts` (all of
      exactly `m * k` files) is cut into pieces of `k`: piece `i` of each,
      in category order. */
  function Share(parts: seq<seq<string>>, k: nat, m: nat, i: nat): seq<string>
    requires k >= 1 && i < m
    requires forall c :: 0 <= c < |parts| ==> |parts[c]| == m * k
    decreases |parts|
  {
    if |parts| == 0 then [] else PieceOf(parts[0], k, m, i) + Share(parts[1..], k, m, i)
  }

  /** Cutting a share back into pieces of `k` gives, as piece `c`, piece
      `i` of part `c`. */
  lemma {:induction false} ShareChunks(parts: seq<seq<string>>, k: nat, m: nat, i: nat)
    requires k >= 1 && i < m
    requires forall c :: 0 <= c < |parts| ==> |parts[c]| == m * k
    ensures |Chunks(Share(parts, k, m, i), k)| == |parts|
    ensures forall c :: 0 <= c < |parts| ==> Chunks(Share(parts, k, m, i), k)[c] == PieceOf(parts[c], k, m, i)
    decreases |parts|
  {
    if |parts| > 0 {
      var head := PieceOf(parts[0], k, m, i);
      var tail := Share(parts[1..], k, m, i);
      ShareChunks(parts[1..], k, m, i);
      ChunksCons(head, tail, k);
      assert Chunks(Share(parts, k, m, i), k) == [head] + Chunks(tail, k);
    }
  }

  lemma {:induction false} ShareLength(parts: seq<seq<string>>, k: nat, m: nat, i: nat)
    requires k >= 1 && i < m
    requires forall c :: 0 <= c < |parts| ==> |parts[c]| == m * k
    ensures |Share(parts, k, m, i)| == |parts| * k
    decreases |parts|
  {
    if |parts| > 0 {
      ShareLength(parts[1..], k, m, i);
      assert (|parts| - 1) * k + k == |parts| * k;
    }
  }

  /** With `m` subsets and a category list of exactly `m * k` files, subset
      `i` is extended by piece `i` of the list. */
  lemma AssignChunksExact(subsets: seq<seq<string>>, part: seq<string>, k: nat, m: nat)
    requires k >= 1 && |subsets| == m && |part| == m * k
    ensures AssignChunks(subsets, part, k).Success?
    ensures forall i :: 0 <= i < m ==> AssignChunks(subsets, part, k).value[i] == subsets[i] + PieceOf(part, k, m, i)
  {
    ChunksExact(part, k, m);
  }

  /** The category loop under exact counts: subset `i` ends up as it began,
      followed by its share of every category. */
  lemma {:induction false} DistributeExact(subsets: seq<seq<string>>, parts: seq<seq<string>>, k: nat, m: nat)
    requires k >= 1 && |subsets| == m
    requires forall c :: 0 <= c < |parts| ==> |parts[c]| == m * k
    ensures Distribute(subsets, parts, k).Success?
    ensures forall i :: 0 <= i < m ==> Distribute(subsets, parts, k).value[i] == subsets[i] + Share(parts, k, m, i)
    decreases |parts|
  {
    if |parts| > 0 {
      AssignChunksExact(subsets, parts[0], k, m);
      var next := AssignChunks(subsets, parts[0], k).value;
      DistributeExact(next, parts[1..], k, m);
    }
  }

  /** `m` copies of `k` added up: `m * k` spelled out, so that the
      exact-count precondition stays free of non-linear arithmetic. */
  function Times(m: nat, k: nat): nat
  {
    if m == 0 then 0 else Times(m - 1, k) + k
  }

  lemma {:induction false} TimesIsProduct(m: nat, k: nat)
    ensures Times(m, k) == m * k
  {
    if m > 0 {
      TimesIsProduct(m - 1, k);
      assert (m - 1) * k + k == m * k;
    }
  }

  /** The exact-count precondition: `set_num` subsets, at least one
      category, and each category matching exactly `set_num * perCat` of the
      `set_num * |categories| * perCat` files. */
  ghost predicate ExactCounts(listing: seq<string>, setNum: int, cats: seq<string>, perCat: nat)
  {
    && setNum >= 1 && |cats| >= 1 && perCat >= 1
    && |StimFiles(listing)| == Times(setNum, Times(|cats|, perCat))
    && forall c :: 0 <= c < |cats| ==> |CategoryFiles(StimFiles(listing), cats[c])| == Times(setNum, perCat)
  }

  lemma ExactCountsProducts(listing: seq<string>, setNum: int, cats: seq<string>, perCat: nat)
    requires ExactCounts(listing, setNum, cats, perCat)
    ensures |StimFiles(listing)| == setNum * (|cats| * perCat)
    ensures forall c :: 0 <= c < |cats| ==> |CategoryFiles(StimFiles(listing), cats[c])| == setNum * perCat
  {
    TimesIsProduct(|cats|, perCat);
    TimesIsProduct(setNum, |cats| * perCat);
    TimesIsProduct(setNum, perCat);
  }

  /** The arithmetic of the two divisibility checks under exact counts. */
  lemma ExactArithmetic(n: int, setNum: int, cats: int, perCat: int)
    requires setNum >= 1 && cats >= 1 && perCat >= 1 && n == setNum * (cats * perCat)
    ensures PyMod(n, setNum) == 0 && n / setNum == cats * perCat
    ensures PyMod(cats * perCat, cats) == 0 && (cats * perCat) / cats == perCat
  {
    DivExact(n, setNum, cats * perCat);
    DivExact(cats * perCat, cats, perCat);
    ExactRemainders(setNum, cats * perCat);
    ExactRemainders(cats, perCat);
  }

  lemma ExactRemainders(b: int, q: nat)
    requires b >= 1
    ensures PyMod(b * q, b) == 0
  {
    assert b * q == q * b;
    PyModMultiple(q, b);
  }

  /** Under exact counts both checks pass and the category loop runs. */
  lemma CreateSubsetsReachesLoop(listing: seq<string>, setNum: int, cats: seq<string>, shuffled: seq<seq<string>>, perCat: nat)
    requires ShufflesFit(listing, Some(cats), shuffled)
    requires ExactCounts(listing, setNum, cats, perCat)
    ensures CreateSubsets(listing, setNum, Some(cats), shuffled)
            == match Distribute(EmptySubsets(setNum), shuffled, perCat)
               case Failure(e) => Failure(e)
               case Success(lists) => Success(Named(lists))
  {
    ExactCountsProducts(listing, setNum, cats, perCat);
    ExactArithmetic(|StimFiles(listing)|, setNum, |cats|, perCat);
  }

  lemma DivExact(a: int, b: int, q: int)
    requires b > 0 && a == b * q
    ensures a % b == 0 && a / b == q
  {
    MultipleMod(b, q);
    assert b * (a / b) == a;
  }

  /** The shuffled category lists under exact counts: full length, and
      every file in list `c` contains category name `c`. */
  lemma ShuffledExact(listing: seq<string>, setNum: int, cats: seq<string>, shuffled: seq<seq<string>>, perCat: nat)
    requires ShufflesFit(listing, Some(cats), shuffled)
    requires ExactCounts(listing, setNum, cats, perCat)
    ensures forall c :: 0 <= c < |cats| ==> |shuffled[c]| == setNum * perCat
    ensures forall c, j :: 0 <= c < |cats| && 0 <= j < |shuffled[c]| ==> Contains(shuffled[c][j], cats[c])
  {
    ExactCountsProducts(listing, setNum, cats, perCat);
    var total := StimFiles(listing);
    forall c | 0 <= c < |cats| ensures |shuffled[c]| == setNum * perCat {
      assert |multiset(shuffled[c])| == |multiset(CategoryFiles(total, cats[c]))|;
    }
    forall c, j | 0 <= c < |cats| && 0 <= j < |shuffled[c]| ensures Contains(shuffled[c][j], cats[c]) {
      assert shuffled[c][j] in multiset(shuffled[c]);
      assert multiset(CategoryFiles(total, cats[c]))[shuffled[c][j]] > 0;
    }
  }

  /** Under exact counts the partition succeeds with `set_num` subsets of
      `files_per_set` files each; cut into pieces of `perCat`, subset `i`'s
      piece `c` is piece `i` of category `c`'s shuffled list, so every
      subset holds `perCat` files of every category. */
  lemma BalancedSubsets(listing: seq<string>, setNum: int, cats: seq<string>, shuffled: seq<seq<string>>, perCat: nat)
    requires ShufflesFit(listing, Some(cats), shuffled)
    requires ExactCounts(listing, setNum, cats, perCat)
    ensures forall c :: 0 <= c < |cats| ==> |shuffled[c]| == setNum * perCat
    ensures CreateSubsets(listing, setNum, Some(cats), shuffled).Success?
    ensures var subsets := CreateSubsets(listing, setNum, Some(cats), shuffled).value;
      && |subsets| == setNum
      && (forall i :: 0 <= i < setNum ==> |subsets[i].files| == |cats| * perCat)
      && (forall i :: 0 <= i < setNum ==> |Chunks(subsets[i].files, perCat)| == |cats|)
      && (forall i, c :: 0 <= i < setNum && 0 <= c < |cats| ==>
            Chunks(subsets[i].files, perCat)[c] == PieceOf(shuffled[c], perCat, setNum, i))
  {
    ShuffledExact(listing, setNum, cats, shuffled, perCat);
    CreateSubsetsReachesLoop(listing, setNum, cats, shuffled, perCat);
    DistributeExact(EmptySubsets(setNum), shuffled, perCat, setNum);
    var lists := Distribute(EmptySubsets(setNum), shuffled, perCat).value;
    var subsets := CreateSubsets(listing, setNum, Some(cats), shuffled).value;
    assert subsets == Named(lists);
    forall i | 0 <= i < setNum
      ensures subsets[i].files == Share(shuffled, perCat, setNum, i)
      ensures |subsets[i].files| == |cats| * perCat
      ensures |Chunks(subsets[i].files, perCat)| == |cats|
      ensures forall c :: 0 <= c < |cats| ==> Chunks(subsets[i].files, perCat)[c] == PieceOf(shuffled[c], perCat, setNum, i)
    {
      assert lists[i] == [] + Share(shuffled, perCat, setNum, i);
      ShareLength(shuffled, perCat, setNum, i);
      ShareChunks(shuffled, perCat, setNum, i);
    }
  }

  /** Piece `c` of every subset, in subset order. */
  function Column(subsets: seq<Subset>, k: nat, c: nat): (r: seq<seq<string>>)
    requires k >= 1
    requires forall i :: 0 <= i < |subsets| ==> c < |Chunks(subsets[i].files, k)|
    ensures |r| == |subsets|
  {
    seq(|subsets|, i requires 0 <= i < |subsets| => Chunks(subsets[i].files, k)[c])
  }

  /** When piece `c` of subset `i` is piece `i` of `xs`, the column is `xs`
      cut into pieces. */
  lemma ColumnOfPieces(subsets: seq<Subset>, xs: seq<string>, k: nat, m: nat, c: nat)
    requires k >= 1 && |subsets| == m && |xs| == m * k
    requires forall i :: 0 <= i < m ==> c < |Chunks(subsets[i].files, k)|
    requires forall i :: 0 <= i < m ==> Chunks(subsets[i].files, k)[c] == PieceOf(xs, k, m, i)
    ensures Column(subsets, k, c) == Chunks(xs, k)
  {
    ChunksExact(xs, k, m);
    var col := Column(subsets, k, c);
    forall i | 0 <= i < m
      ensures col[i] == Chunks(xs, k)[i]
    {
      assert col[i] == Chunks(subsets[i].files, k)[c];
    }
  }

  /** Every file of a category lands in exactly one subset: taking piece `c`
      of every subset, in subset order, gives back category `c`'s shuffled
      list, which holds each matching file exactly as often as the listing
      does. */
  lemma EveryCategoryFileOnce(listing: seq<string>, setNum: int, cats: seq<string>, shuffled: seq<seq<string>>, perCat: nat, c: nat)
    requires ShufflesFit(listing, Some(cats), shuffled)
    requires ExactCounts(listing, setNum, cats, perCat)
    requires c < |cats|
    ensures CreateSubsets(listing, setNum, Some(cats), shuffled).Success?
    ensures var subsets := CreateSubsets(listing, setNum, Some(cats), shuffled).value;
      && |subsets| == setNum
      && (forall i :: 0 <= i < setNum ==> |Chunks(subsets[i].files, perCat)| == |cats|)
      && multiset(Flatten(Column(subsets, perCat, c))) == multiset(CategoryFiles(StimFiles(listing), cats[c]))
  {
    BalancedSubsets(listing, setNum, cats, shuffled, perCat);
    var subsets := CreateSubsets(listing, setNum, Some(cats), shuffled).value;
    ColumnOfPieces(subsets, shuffled[c], perCat, setNum, c);
  }

  // ---------------------------------------------------------------------
  // Crashes and keys

  /** With no stimulus files both checks pass, `files_per_cat_per_set` is 0,
      and `range(0, 0, 0)` raises `ValueError`. */
  lemma EmptyListingZeroStep(listing: seq<string>, setNum: int, cats: seq<string>, shuffled: seq<seq<string>>)
    requires ShufflesFit(listing, Some(cats), shuffled)
    requires setNum != 0 && |StimFiles(listing)| == 0 && |cats| > 0
    ensures CreateSubsets(listing, setNum, Some(cats), shuffled) == Failure(ZeroChunkStep)
  {
    assert PyMod(0, setNum) == 0 && 0 / setNum == 0;
    assert PyMod(0, |cats|) == 0 && 0 / |cats| == 0;
    assert Distribute(EmptySubsets(setNum), shuffled, 0) == Failure(ZeroChunkStep);
  }

  /** `ceil(len(xs) / k)` pieces: one fewer would not hold a non-empty
      `xs`. */
  lemma {:induction false} ChunksCountBounds<T>(xs: seq<T>, k: nat)
    requires k >= 1 && |xs| > 0
    ensures (|Chunks(xs, k)| - 1) * k < |xs|
    decreases |xs|
  {
    if |xs| > k {
      ChunksCountBounds(xs[k..], k);
      var n := |Chunks(xs[k..], k)|;
      assert |Chunks(xs, k)| == n + 1;
      MulSucc(n - 1, k);
    }
  }

  /** A category with at most `(set_num - 1) * k` files yields fewer chunks
      than there are subsets, and `cat_chunks[i]` raises `IndexError`. */
  lemma AssignChunksTooFew(subsets: seq<seq<string>>, part: seq<string>, k: nat)
    requires k >= 1 && |subsets| >= 1
    requires |part| <= (|subsets| - 1) * k
    ensures AssignChunks(subsets, part, k) == Failure(ChunkMissing)
  {
    if |part| > 0 {
      ChunksCountBounds(part, k);
      var n := |Chunks(part, k)|;
      if n >= |subsets| {
        MulMonotone(|subsets| - 1, n - 1, k);
        assert false;
      }
    }
  }

  /** The dict keys are pairwise different: their digits read back as
      different numbers. */
  lemma SubsetNamesAllDistinct(n: nat)
    ensures forall i, j :: 0 <= i < j < n ==> SubsetName(i) != SubsetName(j)
  {
    forall i, j | 0 <= i < j < n ensures SubsetName(i) != SubsetName(j) {
      assert SubsetName(i)[7..] != SubsetName(j)[7..];
    }
  }

  lemma {:induction false} FlattenMember<T>(xss: seq<seq<T>>, i: nat)
    requires i < |xss|
    ensures forall x :: x in xss[i] ==> x in Flatten(xss)
    decreases i
  {
    if i > 0 {
      FlattenMember(xss[1..], i - 1);
    }
  }

  lemma PieceMembers(xs: seq<string>, k: nat, m: nat, i: nat)
    requires k >= 1 && |xs| == m * k && i < m
    ensures forall f :: f in PieceOf(xs, k, m, i) ==> f in xs
  {
    ChunksExact(xs, k, m);
    FlattenMember(Chunks(xs, k), i);
  }

  /** Under exact counts, piece `c` of every subset holds only files whose
      name contains category `c`. */
  lemma SubsetPiecesMatchCategory(listing: seq<string>, setNum: int, cats: seq<string>, shuffled: seq<seq<string>>, perCat: nat)
    requires ShufflesFit(listing, Some(cats), shuffled)
    requires ExactCounts(listing, setNum, cats, perCat)
    ensures CreateSubsets(listing, setNum, Some(cats), shuffled).Success?
    ensures var subsets := CreateSubsets(listing, setNum, Some(cats), shuffled).value;
      forall i, c, f ::
        (0 <= i < |subsets| && 0 <= c < |cats| && c < |Chunks(subsets[i].files, perCat)| &&
         f in Chunks(subsets[i].files, perCat)[c]) ==> Contains(f, cats[c])
  {
    BalancedSubsets(listing, setNum, cats, shuffled, perCat);
    ShuffledExact(listing, setNum, cats, shuffled, perCat);
    var subsets := CreateSubsets(listing, setNum, Some(cats), shuffled).value;
    forall i, c, f | 0 <= i < |subsets| && 0 <= c < |cats| && c < |Chunks(subsets[i].files, perCat)| &&
        f in Chunks(subsets[i].files, perCat)[c]
      ensures Contains(f, cats[c])
    {
      PieceMembers(shuffled[c], perCat, setNum, i);
      var j :| 0 <= j < |shuffled[c]| && shuffled[c][j] == f;
    }
  }
}
