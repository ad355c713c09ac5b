/** String operations the core relies on: `name.split("_")[0]`, Python's
    substring test `t in s`, `str(n)` for a natural number, and the ordering
    `sorted()` uses on `str` values (code point by code point). */
module Strings {

  /** `s.split("_")[0]`: the part of `s` before its first underscore, or
      all of `s` when it has none. */
  function SplitHead(s: string): (r: string)
    ensures r <= s
    ensures '_' !in r
    ensures |r| < |s| ==> s[|r|] == '_'
  {
    if |s| == 0 || s[0] == '_' then "" else [s[0]] + SplitHead(s[1..])
  }

  /** The category names a listing suggests: the distinct name heads. */
  ghost function HeadSet(files: seq<string>): set<string>
  {
    set f | f in files :: SplitHead(f)
  }

  /** `[file.split("_")[0] for file in files]`: one head per file, and as a
      collection exactly the heads of the listing. */
  function Prefixes(files: seq<string>): (r: seq<string>)
    ensures |r| == |files|
    ensures forall i :: 0 <= i < |files| ==> r[i] == SplitHead(files[i])
    ensures forall c :: c in r <==> c in HeadSet(files)
  {
    var ps := seq(|files|, i requires 0 <= i < |files| => SplitHead(files[i]));
    HeadsOf(files, ps);
    ps
  }

  lemma HeadsOf(files: seq<string>, ps: seq<string>)
    requires |ps| == |files|
    requires forall i :: 0 <= i < |files| ==> ps[i] == SplitHead(files[i])
    ensures forall c :: c in ps <==> c in HeadSet(files)
  {
    forall c ensures c in ps <==> c in HeadSet(files) {
      if c in ps {
        var i :| 0 <= i < |ps| && ps[i] == c;
        assert files[i] in files;
      }
      if c in HeadSet(files) {
        var f :| f in files && SplitHead(f) == c;
        var i :| 0 <= i < |files| && files[i] == f;
        assert ps[i] == c;
      }
    }
  }

  predicate OccursAt(t: string, s: string, i: int)
  {
    0 <= i && i + |t| <= |s| && s[i..i + |t|] == t
  }

  /** Python's `t in s` for two strings. */
  function Contains(s: string, t: string): (r: bool)
    ensures r <==> exists i :: OccursAt(t, s, i)
  {
    if t <= s then
      assert OccursAt(t, s, 0);
      true
    else if |s| == 0 then
      assert forall i :: !OccursAt(t, s, i);
      false
    else
      var rest := Contains(s[1..], t);
      if rest then
        var i :| OccursAt(t, s[1..], i);
        assert s[1..][i..i + |t|] == s[i + 1..i + 1 + |t|];
        assert OccursAt(t, s, i + 1);
        true
      else
        forall i | OccursAt(t, s, i)
          ensures i > 0 && OccursAt(t, s[1..], i - 1)
        {
          assert s[1..][i - 1..i - 1 + |t|] == s[i..i + |t|];
        }
        false
  }

  function DigitChar(d: nat): (c: char)
    requires d < 10
  {
    ['0', '1', '2', '3', '4', '5', '6', '7', '8', '9'][d]
  }

  function DigitValue(c: char): nat
  {
    if '0' <= c <= '9' then (c as int - '0' as int) else 0
  }

  /** `str(n)` for a natural number: decimal digits, no leading zero. */
  function NatToString(n: nat): (r: string)
    ensures |r| >= 1
    ensures forall i :: 0 <= i < |r| ==> '0' <= r[i] <= '9'
    ensures |r| > 1 ==> r[0] != '0'
  {
    if n < 10 then [DigitChar(n)] else NatToString(n / 10) + [DigitChar(n % 10)]
  }

  /** Reading a string of decimal digits back as a number (Python's `int(s)`
      on such a string). */
  function ParseDecimal(s: string): nat
  {
    if |s| == 0 then 0 else 10 * ParseDecimal(s[..|s| - 1]) + DigitValue(s[|s| - 1])
  }

  lemma {:induction false} ParseNatToString(n: nat)
    ensures ParseDecimal(NatToString(n)) == n
  {
    var r := NatToString(n);
    if n < 10 {
      assert r[..0] == "";
    } else {
      assert r[..|r| - 1] == NatToString(n / 10);
      ParseNatToString(n / 10);
    }
  }

  /** Different numbers are rendered as different strings. */
  lemma NatToStringInjective(m: nat, n: nat)
    requires m != n
    ensures NatToString(m) != NatToString(n)
  {
    ParseNatToString(m);
    ParseNatToString(n);
  }

  /** `a <= b` on Python strings: lexicographic on code points, a prefix
      before any of its extensions. */
  function StrLe(a: string, b: string): bool
  {
    |a| == 0 || (|b| > 0 && (a[0] < b[0] || (a[0] == b[0] && StrLe(a[1..], b[1..]))))
  }

  lemma {:induction false} StrLeTotal(a: string, b: string)
    ensures StrLe(a, b) || StrLe(b, a)
  {
    if |a| > 0 && |b| > 0 && a[0] == b[0] {
      StrLeTotal(a[1..], b[1..]);
    }
  }

  lemma {:induction false} StrLeAntisymmetric(a: string, b: string)
    requires StrLe(a, b) && StrLe(b, a)
    ensures a == b
  {
    if |a| > 0 && |b| > 0 {
      StrLeAntisymmetric(a[1..], b[1..]);
      assert a == [a[0]] + a[1..];
      assert b == [b[0]] + b[1..];
    }
  }

  ghost predicate Sorted(xs: seq<string>)
  {
    forall i :: 0 < i < |xs| ==> StrLe(xs[i - 1], xs[i])
  }

  function Insert(x: string, xs: seq<string>): (r: seq<string>)
    requires Sorted(xs)
    ensures Sorted(r)
    ensures multiset(r) == multiset(xs) + multiset{x}
    ensures r[0] == x || (|xs| > 0 && r[0] == xs[0])
  {
    if |xs| == 0 then [x]
    else if StrLe(x, xs[0]) then [x] + xs
    else
      StrLeTotal(x, xs[0]);
      var rest := Insert(x, xs[1..]);
      assert xs == [xs[0]] + xs[1..];
      [xs[0]] + rest
  }

  /** `sorted(xs)` for a list of strings. */
  function Sort(xs: seq<string>): (r: seq<string>)
    ensures Sorted(r)
    ensures multiset(r) == multiset(xs)
  {
    if |xs| == 0 then []
    else
      assert xs == xs[..|xs| - 1] + [xs[|xs| - 1]];
      Insert(xs[|xs| - 1], Sort(xs[..|xs| - 1]))
  }
}
