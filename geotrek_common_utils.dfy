/**
  Sequence and string helpers of Geotrek's common utilities: the `LTE`
  comparator, strided `sampling`, order-preserving `uniquify`, and the
  text half of `sql_extent`, which turns a PostGIS `BOX(xmin ymin,xmax ymax)`
  into its four coordinate tokens.
 */
module GeotrekCommonUtils {
  import opened Wrappers

  // ---------------------------------------------------------------------
  // LTE: an integer that compares "equal" to anything not above it.
  // ---------------------------------------------------------------------

  /** `LTE(n)`; Python's `other == LTE(n)` dispatches to `LTE.__eq__`. */
  datatype Lte = Lte(n: int) {
    /** `LTE.__eq__(other)`: the comparison accepts exactly the values `<= n`. */
    predicate Equals(other: int)
      ensures Equals(other) <==> other <= n
    {
      other <= n
    }
  }

  /** The values `LTE(n)` accepts are closed downwards and include `n`. */
  lemma LteAcceptsBound(t: Lte, a: int, b: int)
    ensures t.Equals(t.n)
    ensures !t.Equals(t.n + 1)
    ensures t.Equals(a) && b <= a ==> t.Equals(b)
  {
  }

  // ---------------------------------------------------------------------
  // sampling(values, total)
  // ---------------------------------------------------------------------

  /**
    The stride `max(1, int(len(values) / total))`. For a positive `total`
    the quotient is `n / total`; for a negative one it is at most 0 under
    both floor and truncating division, so the stride is 1. A zero `total`
    raises in the source.
   */
  function SamplingStep(n: nat, total: int): (step: nat)
    requires total != 0
    ensures step >= 1
    ensures total > 0 && n >= total ==> step == n / total
    ensures total < 0 || n < 2 * total ==> step == 1
  {
    if total > 0 && n / total > 1 then n / total else 1
  }

  /**
    `list(islice(values, 0, len(values), step))`: the elements at indices
    0, step, 2*step, ... below `|values|`, and no other index of that form.
   */
  function Strided<T>(values: seq<T>, step: nat): (r: seq<T>)
    requires step >= 1
    ensures forall k :: 0 <= k < |r| ==> k * step < |values| && r[k] == values[k * step]
    ensures |values| <= |r| * step
    decreases |values|
  {
    if |values| == 0 then []
    else if |values| <= step then StridedSingle(values, step); [values[0]]
    else
      var rest := Strided(values[step..], step);
      StridedCons(values, step, rest);
      [values[0]] + rest
  }

  /** A non-empty input no longer than the stride keeps only its first element. */
  lemma StridedSingle<T>(values: seq<T>, step: nat)
    requires 1 <= step && 0 < |values| <= step
    ensures forall k :: 0 <= k < 1 ==> k * step < |values| && [values[0]][k] == values[k * step]
    ensures |values| <= 1 * step
  {
    assert 0 * step == 0 && 1 * step == step;
  }

  /** `(k + 1) * s` unfolds to `k * s + s`. */
  lemma MulSucc(k: int, s: int)
    ensures (k + 1) * s == k * s + s
  {
  }

  /** Prepending `values[0]` to the stride of `values[step..]` gives the stride of `values`. */
  lemma StridedCons<T>(values: seq<T>, step: nat, rest: seq<T>)
    requires 1 <= step < |values|
    requires forall k :: 0 <= k < |rest| ==> k * step < |values| - step && rest[k] == values[step..][k * step]
    requires |values| - step <= |rest| * step
    ensures forall k :: 0 <= k < |rest| + 1 ==>
      k * step < |values| && ([values[0]] + rest)[k] == values[k * step]
    ensures |values| <= (|rest| + 1) * step
  {
    var r := [values[0]] + rest;
    forall k | 0 <= k < |r|
      ensures k * step < |values| && r[k] == values[k * step]
    {
      if k > 0 {
        MulSucc(k - 1, step);
        assert r[k] == rest[k - 1];
      }
    }
    MulSucc(|rest|, step);
  }

  /** `sampling(values, total)`: roughly `total` evenly spaced items of `values`. */
  function Sampling<T>(values: seq<T>, total: int): (r: seq<T>)
    requires total != 0
    ensures forall k :: 0 <= k < |r| ==>
      k * SamplingStep(|values|, total) < |values| && r[k] == values[k * SamplingStep(|values|, total)]
    ensures |values| <= |r| * SamplingStep(|values|, total)
  {
    Strided(values, SamplingStep(|values|, total))
  }

  /** From `a * s < b * s` with a positive `s` follows `a < b`. */
  lemma MulStrictCancel(a: int, b: int, s: int)
    requires s > 0 && a * s < b * s
    ensures a < b
  {
    assert (b - a) * s > 0;
  }

  /** `m` is the ceiling of `n / s` when `(m - 1) * s < n <= m * s`. */
  lemma CeilDiv(n: nat, s: nat, m: nat)
    requires s >= 1
    requires m > 0 ==> (m - 1) * s < n
    requires n <= m * s
    ensures m == (n + s - 1) / s
  {
    var q := (n + s - 1) / s;
    DivBounds(n + s - 1, s);
    MulSucc(m, s);
    MulStrictCancel(q, m + 1, s);
    if m > 0 {
      MulStrictCancel(m - 1, q, s);
    }
  }

  /** The quotient times the divisor is at most the dividend, and one more divisor exceeds it. */
  lemma DivBounds(a: nat, s: nat)
    requires s >= 1
    ensures (a / s) * s <= a < (a / s) * s + s
  {
    assert a == (a / s) * s + a % s;
  }

  /** The number of sampled items is `ceil(len(values) / step)`. */
  lemma SamplingLength<T>(values: seq<T>, total: int)
    requires total != 0
    ensures |Sampling(values, total)| == (|values| + SamplingStep(|values|, total) - 1) / SamplingStep(|values|, total)
  {
    var r := Sampling(values, total);
    var s := SamplingStep(|values|, total);
    if |r| > 0 {
      assert (|r| - 1) * s < |values|;
    }
    CeilDiv(|values|, s, |r|);
  }

  /** Every element of the sample comes from `values`, and the sample keeps their order. */
  lemma SamplingIsOrderedSubsequence<T>(values: seq<T>, total: int, i: int, j: int)
    requires total != 0
    requires 0 <= i < j < |Sampling(values, total)|
    ensures Sampling(values, total)[i] in values
    ensures exists a, b :: (0 <= a < b < |values| &&
      Sampling(values, total)[i] == values[a] && Sampling(values, total)[j] == values[b])
  {
    var r := Sampling(values, total);
    var s := SamplingStep(|values|, total);
    var a, b := i * s, j * s;
    MulStrictMonotone(i, j, s);
    assert 0 <= a < b < |values| && r[i] == values[a] && r[j] == values[b];
  }

  /** Every sampled item, the last one included, is an element of `values`. */
  lemma SamplingFromValues<T>(values: seq<T>, total: int)
    requires total != 0
    ensures forall k :: 0 <= k < |Sampling(values, total)| ==> Sampling(values, total)[k] in values
  {
    var r := Sampling(values, total);
    var s := SamplingStep(|values|, total);
    forall k | 0 <= k < |r|
      ensures r[k] in values
    {
      MulNonNegative(k, s);
      assert r[k] == values[k * s];
    }
  }

  /** The product of two natural numbers is a natural number. */
  lemma MulNonNegative(a: nat, b: nat)
    ensures a * b >= 0
  {
  }

  /** A non-empty input's sample starts with its first element. */
  lemma SamplingStartsWithFirst<T>(values: seq<T>, total: int)
    requires total != 0
    requires |values| > 0
    ensures |Sampling(values, total)| > 0 && Sampling(values, total)[0] == values[0]
  {
  }

  /** When `total` covers the whole input, the stride is 1 and nothing is dropped. */
  lemma SamplingWhole<T>(values: seq<T>, total: int)
    requires total < 0 || (total > 0 && total >= |values|)
    ensures Sampling(values, total) == values
  {
    var r := Sampling(values, total);
    assert SamplingStep(|values|, total) == 1;
    assert |r| == |values|;
  }

  /** When `total` items are available, at least `total` come back. */
  lemma SamplingAtLeastTotal<T>(values: seq<T>, total: int)
    requires 0 < total <= |values|
    ensures |Sampling(values, total)| >= total
  {
    var s := SamplingStep(|values|, total);
    var m := |Sampling(values, total)|;
    var n := |values|;
    assert s == n / total;
    DivTimesDivisor(n, total);
    assert s * total <= n <= m * s;
    MulCancel(total, m, s);
  }

  /** Floor division times the divisor does not exceed the dividend. */
  lemma DivTimesDivisor(n: nat, d: int)
    requires d > 0
    ensures (n / d) * d <= n
  {
    assert n == (n / d) * d + n % d;
  }

  /** Multiplication by a positive number is strictly monotone. */
  lemma MulStrictMonotone(a: int, b: int, s: int)
    requires a < b && s > 0
    ensures 0 <= a ==> 0 <= a * s
    ensures a * s < b * s
  {
    assert b * s - a * s == (b - a) * s;
  }

  /** From `a * s <= b * s` with a positive `s` follows `a <= b`. */
  lemma MulCancel(a: int, b: int, s: int)
    requires s > 0 && a * s <= b * s
    ensures a <= b
  {
    assert (b - a) * s >= 0;
  }

  /** `range(10)`. */
  const Digits: seq<int> := [0, 1, 2, 3, 4, 5, 6, 7, 8, 9]

  /** Ten values sampled for five give five items. */
  lemma SamplingRangeLength()
    ensures |Sampling(Digits, 5)| == 5
  {
    assert SamplingStep(10, 5) == 2;
    SamplingLength(Digits, 5);
  }

  /** The doc-test `sampling(range(10), 5) == [0, 2, 4, 6, 8]`. */
  lemma SamplingRangeExample()
    ensures Sampling(Digits, 5) == [0, 2, 4, 6, 8]
  {
    SamplingRangeLength();
    var r := Sampling(Digits, 5);
    assert SamplingStep(10, 5) == 2;
    assert r[0] == Digits[0] && r[1] == Digits[2] && r[2] == Digits[4];
    assert r[3] == Digits[6] && r[4] == Digits[8];
  }

  /** Twelve letters sampled for four give four items. */
  lemma SamplingLettersLength()
    ensures |Sampling("abcdefghijkl", 4)| == 4
  {
    assert SamplingStep(12, 4) == 3;
    SamplingLength("abcdefghijkl", 4);
  }

  /** The doc-test `sampling('abcdefghijkl', 4) == ['a', 'd', 'g', 'j']`. */
  lemma SamplingLettersExample()
    ensures Sampling("abcdefghijkl", 4) == "adgj"
  {
    SamplingLettersLength();
    var letters := "abcdefghijkl";
    var c := Sampling(letters, 4);
    assert SamplingStep(12, 4) == 3;
    assert c[0] == letters[0] && c[1] == letters[3] && c[2] == letters[6] && c[3] == letters[9];
  }

  /** The docstring's "N items" is approximate: ten values sampled for four give five. */
  lemma SamplingMayReturnMoreThanTotal()
    ensures |Sampling(Digits, 4)| == 5
  {
    assert SamplingStep(10, 4) == 2;
    SamplingLength(Digits, 4);
  }

  // ---------------------------------------------------------------------
  // uniquify(values)
  // ---------------------------------------------------------------------

  predicate NoDuplicates<T(==)>(s: seq<T>) {
    forall i, j :: 0 <= i < j < |s| ==> s[i] != s[j]
  }

  /**
    The list the source's loop has built after reading `s`: each element
    is appended when it is not already in the list.
   */
  function Unique<T(==)>(s: seq<T>): (u: seq<T>)
    ensures NoDuplicates(u)
    ensures forall i :: 0 <= i < |s| ==> s[i] in u
    ensures forall i :: 0 <= i < |u| ==> u[i] in s
    decreases |s|
  {
    if s == [] then []
    else
      var prefix := s[..|s| - 1];
      var last := s[|s| - 1];
      var u := Unique(prefix);
      assert forall i :: 0 <= i < |s| - 1 ==> s[i] == prefix[i];
      if last in u then u else u + [last]
  }

  /** `uniquify(values)`: the unique values, order preserved. */
  method Uniquify<T(==)>(values: seq<T>) returns (unique: seq<T>)
    ensures unique == Unique(values)
    ensures NoDuplicates(unique)
    ensures forall i :: 0 <= i < |values| ==> values[i] in unique
    ensures forall i :: 0 <= i < |unique| ==> unique[i] in values
  {
    unique := [];
    for i := 0 to |values|
      invariant unique == Unique(values[..i])
    {
      assert values[..i + 1][..i] == values[..i];
      if values[i] !in unique {
        unique := unique + [values[i]];
      }
    }
    assert values[..|values|] == values;
  }

  /** The index where `x` first occurs in `s`. */
  function FirstIndex<T(==)>(s: seq<T>, x: T): (i: nat)
    requires x in s
    ensures i < |s| && s[i] == x
    ensures forall j :: 0 <= j < i ==> s[j] != x
  {
    if s[0] == x then 0 else 1 + FirstIndex(s[1..], x)
  }

  /** The first occurrence of `x` is the only position holding `x` with no `x` before it. */
  lemma FirstIndexUnique<T>(s: seq<T>, x: T, i: nat)
    requires i < |s| && s[i] == x
    requires forall j :: 0 <= j < i ==> s[j] != x
    ensures FirstIndex(s, x) == i
  {
  }

  /**
    "Order preserved": the unique values appear in the order of their first
    occurrences in the input.
   */
  lemma {:induction false} UniqueOrderedByFirstOccurrence<T>(s: seq<T>)
    ensures forall i, j :: 0 <= i < j < |Unique(s)| ==>
      FirstIndex(s, Unique(s)[i]) < FirstIndex(s, Unique(s)[j])
  {
    if s != [] {
      var prefix := s[..|s| - 1];
      var last := s[|s| - 1];
      var u := Unique(prefix);
      assert s == prefix + [last];
      UniqueOrderedByFirstOccurrence(prefix);
      forall y | y in prefix
        ensures FirstIndex(s, y) == FirstIndex(prefix, y)
      {
        FirstIndexUnique(s, y, FirstIndex(prefix, y));
      }
      if last !in u {
        assert last !in prefix;
        FirstIndexUnique(s, last, |s| - 1);
      }
      forall i, j | 0 <= i < j < |Unique(s)|
        ensures FirstIndex(s, Unique(s)[i]) < FirstIndex(s, Unique(s)[j])
      {
        assert Unique(s)[i] == u[i] && u[i] in prefix;
        if j < |u| {
          assert Unique(s)[j] == u[j] && u[j] in prefix;
        }
      }
    }
  }

  /** `uniquify([1, 2, 1, 3, 2]) == [1, 2, 3]`: later repeats are dropped, first occurrences kept. */
  lemma UniqueExample()
    ensures Unique([1, 2, 1, 3, 2]) == [1, 2, 3]
  {
    assert [1][..0] == [];
    assert Unique([1]) == [1];
    assert [1, 2][..1] == [1];
    assert Unique([1, 2]) == [1, 2];
    assert [1, 2, 1][..2] == [1, 2];
    assert Unique([1, 2, 1]) == [1, 2];
    assert [1, 2, 1, 3][..3] == [1, 2, 1];
    assert Unique([1, 2, 1, 3]) == [1, 2, 3];
    assert [1, 2, 1, 3, 2][..4] == [1, 2, 1, 3];
  }

  // ---------------------------------------------------------------------
  // Text of sql_extent: replace, split.
  // ---------------------------------------------------------------------

  /** The characters Python 2's `str.split()` treats as separators. */
  const Whitespace: set<char> := {' ', '\t', '\n', '\r', '\U{0B}', '\U{0C}'}

  /** A token `str.split()` can produce: non-empty, no separator in it. */
  predicate IsToken(w: string) {
    |w| > 0 && forall i :: 0 <= i < |w| ==> w[i] !in Whitespace
  }

  /**
    `s.replace(pat, rep)`: every non-overlapping occurrence of `pat`,
    scanning left to right, is replaced by `rep`.
   */
  function Replace(s: string, pat: string, rep: string): (r: string)
    requires |pat| > 0
    ensures rep == pat ==> r == s
    ensures |rep| <= |pat| ==> |r| <= |s|
    ensures |s| < |pat| ==> r == s
    decreases |s|
  {
    if |s| < |pat| then s
    else if s[..|pat|] == pat then rep + Replace(s[|pat|..], pat, rep)
    else [s[0]] + Replace(s[1..], pat, rep)
  }

  /** Text lacking some character of `pat` holds no occurrence of it, and is returned unchanged. */
  lemma {:induction false} ReplaceAbsent(s: string, pat: string, rep: string, c: char)
    requires |pat| > 0 && c in pat && c !in s
    ensures Replace(s, pat, rep) == s
    decreases |s|
  {
    if |s| >= |pat| {
      var i :| 0 <= i < |pat| && pat[i] == c;
      assert s[..|pat|][i] != pat[i];
      ReplaceAbsent(s[1..], pat, rep, c);
      assert s == [s[0]] + s[1..];
    }
  }

  /** A leading occurrence of the pattern is replaced and the scan resumes after it. */
  lemma ReplaceLeading(pat: string, s: string, rep: string)
    requires |pat| > 0
    ensures Replace(pat + s, pat, rep) == rep + Replace(s, pat, rep)
  {
    assert (pat + s)[..|pat|] == pat;
    assert (pat + s)[|pat|..] == s;
  }

  /** Replacing a single character distributes over concatenation. */
  lemma {:induction false} ReplaceCharConcat(a: string, b: string, c: char, rep: string)
    ensures Replace(a + b, [c], rep) == Replace(a, [c], rep) + Replace(b, [c], rep)
    decreases |a|
  {
    if a != [] {
      ReplaceCharConcat(a[1..], b, c, rep);
      assert (a + b)[1..] == a[1..] + b;
      assert (a + b)[..1] == a[..1];
      if a[..1] == [c] {
        assert Replace(a, [c], rep) == rep + Replace(a[1..], [c], rep);
        assert Replace(a + b, [c], rep) == rep + Replace(a[1..] + b, [c], rep);
      } else {
        assert Replace(a, [c], rep) == [a[0]] + Replace(a[1..], [c], rep);
        assert Replace(a + b, [c], rep) == [a[0]] + Replace(a[1..] + b, [c], rep);
      }
    } else {
      assert a + b == b;
    }
  }

  /** Replacing a character in a one-character string. */
  lemma ReplaceCharSingle(d: char, c: char, rep: string)
    ensures Replace([d], [c], rep) == if d == c then rep else [d]
  {
    assert [d][..1] == [d];
  }

  /** The longest separator-free prefix of `s`. */
  function LeadingWord(s: string): (w: string)
    ensures w <= s
    ensures forall i :: 0 <= i < |w| ==> w[i] !in Whitespace
    ensures |w| == |s| || s[|w|] in Whitespace
    decreases |s|
  {
    if s == [] || s[0] in Whitespace then [] else [s[0]] + LeadingWord(s[1..])
  }

  /** `s.split()`: the maximal separator-free runs of `s`, in order. */
  function Split(s: string): (r: seq<string>)
    ensures forall k :: 0 <= k < |r| ==> IsToken(r[k])
    decreases |s|
  {
    if s == [] then []
    else if s[0] in Whitespace then Split(s[1..])
    else
      var w := LeadingWord(s);
      [w] + Split(s[|w|..])
  }

  /** Concatenation of a list of strings. */
  function Concat(ws: seq<string>): string {
    if ws == [] then [] else ws[0] + Concat(ws[1..])
  }

  /** `s` with its separators deleted. */
  function WithoutWhitespace(s: string): (t: string)
    ensures forall i :: 0 <= i < |t| ==> t[i] !in Whitespace
  {
    if s == [] then []
    else if s[0] in Whitespace then WithoutWhitespace(s[1..])
    else [s[0]] + WithoutWhitespace(s[1..])
  }

  lemma {:induction false} WithoutWhitespaceConcat(a: string, b: string)
    ensures WithoutWhitespace(a + b) == WithoutWhitespace(a) + WithoutWhitespace(b)
    decreases |a|
  {
    if a != [] {
      assert (a + b)[0] == a[0];
      assert (a + b)[1..] == a[1..] + b;
      WithoutWhitespaceConcat(a[1..], b);
      if a[0] in Whitespace {
        assert WithoutWhitespace(a + b) == WithoutWhitespace(a[1..] + b);
      } else {
        assert WithoutWhitespace(a + b) == [a[0]] + WithoutWhitespace(a[1..] + b);
      }
    } else {
      assert a + b == b;
    }
  }

  lemma {:induction false} WithoutWhitespaceOfWord(w: string)
    requires forall i :: 0 <= i < |w| ==> w[i] !in Whitespace
    ensures WithoutWhitespace(w) == w
    decreases |w|
  {
    if w != [] {
      WithoutWhitespaceOfWord(w[1..]);
    }
  }

  /** Splitting loses only separators: joining the tokens gives back the non-separator text. */
  lemma {:induction false} SplitKeepsAllText(s: string)
    ensures Concat(Split(s)) == WithoutWhitespace(s)
    decreases |s|
  {
    if s != [] {
      if s[0] in Whitespace {
        SplitKeepsAllText(s[1..]);
      } else {
        var w := LeadingWord(s);
        var rest := s[|w|..];
        assert s == w + rest;
        SplitKeepsAllText(rest);
        assert Split(s) == [w] + Split(rest);
        assert Concat([w] + Split(rest)) == w + Concat(Split(rest)) by {
          assert ([w] + Split(rest))[1..] == Split(rest);
        }
        WithoutWhitespaceConcat(w, rest);
        WithoutWhitespaceOfWord(w);
      }
    }
  }

  /** The leading word of a token followed by a separator (or by nothing) is that token. */
  lemma {:induction false} LeadingWordOfToken(w: string, rest: string)
    requires forall i :: 0 <= i < |w| ==> w[i] !in Whitespace
    requires rest == [] || rest[0] in Whitespace
    ensures LeadingWord(w + rest) == w
    decreases |w|
  {
    if w == [] {
    } else {
      assert (w + rest)[1..] == w[1..] + rest;
      LeadingWordOfToken(w[1..], rest);
    }
  }

  /** A token followed by a space splits off as the first item. */
  lemma SplitTokenSpace(w: string, rest: string)
    requires IsToken(w)
    ensures Split(w + " " + rest) == [w] + Split(rest)
  {
    var s := w + " " + rest;
    LeadingWordOfToken(w, " " + rest);
    assert s == w + (" " + rest);
    assert s[|w|..] == " " + rest;
    assert (" " + rest)[1..] == rest;
  }

  /** A lone token splits to itself. */
  lemma SplitToken(w: string)
    requires IsToken(w)
    ensures Split(w) == [w]
  {
    LeadingWordOfToken(w, []);
    assert w + [] == w;
  }

  /** `" ".join(ws)`. */
  function JoinSpaced(ws: seq<string>): string {
    if |ws| == 0 then [] else if |ws| == 1 then ws[0] else ws[0] + " " + JoinSpaced(ws[1..])
  }

  /**
    `split()` returns the maximal runs: tokens joined by single spaces split
    back into exactly those tokens, no piece merged with or cut from another.
   */
  lemma {:induction false} SplitJoinSpaced(ws: seq<string>)
    requires forall k :: 0 <= k < |ws| ==> IsToken(ws[k])
    ensures Split(JoinSpaced(ws)) == ws
    decreases |ws|
  {
    if |ws| == 1 {
      SplitToken(ws[0]);
    } else if |ws| > 1 {
      SplitJoinSpaced(ws[1..]);
      SplitTokenSpace(ws[0], JoinSpaced(ws[1..]));
      assert [ws[0]] + ws[1..] == ws;
    }
  }

  /** Separators before the text do not change how it splits. */
  lemma {:induction false} SplitSkipsSeparators(sep: string, s: string)
    requires forall i :: 0 <= i < |sep| ==> sep[i] in Whitespace
    ensures Split(sep + s) == Split(s)
    decreases |sep|
  {
    if sep == [] {
      assert sep + s == s;
    } else {
      assert (sep + s)[1..] == sep[1..] + s;
      SplitSkipsSeparators(sep[1..], s);
    }
  }

  // ---------------------------------------------------------------------
  // sql_extent
  // ---------------------------------------------------------------------

  /** The text used when the query returns a null (or empty) box. */
  const NullExtent: string := "0 0 0 0"

  /**
    The coordinate tokens `sql_extent` hands to `float`: the first column of
    the first row, or `'0 0 0 0'` when that is falsy, with `BOX(` and `)`
    removed and commas turned into spaces, split on whitespace.
   */
  function ExtentTokens(box: Option<string>): (r: seq<string>)
    ensures forall k :: 0 <= k < |r| ==> IsToken(r[k])
  {
    var extent := if box.Some? && box.value != "" then box.value else NullExtent;
    Split(Replace(Replace(Replace(extent, "BOX(", ""), ")", ""), ",", " "))
  }

  /** A coordinate as PostGIS prints it: a token with no parenthesis or comma. */
  predicate IsCoordinate(w: string) {
    IsToken(w) && '(' !in w && ')' !in w && ',' !in w
  }

  /** The text PostGIS returns for a box. */
  function BoxText(xmin: string, ymin: string, xmax: string, ymax: string): string {
    "BOX(" + xmin + " " + ymin + "," + xmax + " " + ymax + ")"
  }

  /** Two tokens separated by a space split back into those two tokens. */
  lemma SplitTwoTokens(c: string, d: string)
    requires IsToken(c) && IsToken(d)
    ensures Split(c + " " + d) == [c, d]
  {
    SplitToken(d);
    SplitTokenSpace(c, d);
  }

  /** Three tokens separated by single spaces split back into those three tokens. */
  lemma SplitThreeTokens(b: string, c: string, d: string)
    requires IsToken(b) && IsToken(c) && IsToken(d)
    ensures Split(b + " " + (c + " " + d)) == [b, c, d]
  {
    SplitTwoTokens(c, d);
    SplitTokenSpace(b, c + " " + d);
  }

  /** Four tokens separated by single spaces split back into those four tokens. */
  lemma SplitFourTokens(a: string, b: string, c: string, d: string)
    requires IsToken(a) && IsToken(b) && IsToken(c) && IsToken(d)
    ensures Split(a + " " + b + " " + c + " " + d) == [a, b, c, d]
  {
    SpacedRegroup(a, b, c, d);
    SplitThreeTokens(b, c, d);
    SplitTokenSpace(a, b + " " + (c + " " + d));
  }

  /** Regrouping the four space-separated words from the right. */
  lemma SpacedRegroup(a: string, b: string, c: string, d: string)
    ensures a + " " + b + " " + c + " " + d == a + " " + (b + " " + (c + " " + d))
  {
  }

  /** A null or empty box yields four zeros. */
  lemma NullExtentIsZeros(box: Option<string>)
    requires box.None? || box.value == ""
    ensures ExtentTokens(box) == ["0", "0", "0", "0"]
  {
    NullExtentUnchanged();
    SplitNullExtent();
  }

  /** The fallback text holds nothing the three replacements touch. */
  lemma NullExtentUnchanged()
    ensures Replace(Replace(Replace(NullExtent, "BOX(", ""), ")", ""), ",", " ") == NullExtent
  {
    ReplaceAbsent(NullExtent, "BOX(", "", '(');
    ReplaceAbsent(NullExtent, ")", "", ')');
    ReplaceAbsent(NullExtent, ",", " ", ',');
  }

  /** The fallback text splits into four zeros. */
  lemma SplitNullExtent()
    ensures Split(NullExtent) == ["0", "0", "0", "0"]
  {
    assert NullExtent == "0" + " " + "0" + " " + "0" + " " + "0";
    SplitFourTokens("0", "0", "0", "0");
  }

  /** Removing one character from every piece of the box text. */
  lemma ReplaceCharInBox(a: string, b: string, c: string, d: string, e: char, rep: string)
    ensures Replace(a + " " + b + "," + c + " " + d, [e], rep) ==
      Replace(a, [e], rep) + Replace(" ", [e], rep) + Replace(b, [e], rep) + Replace(",", [e], rep) +
      Replace(c, [e], rep) + Replace(" ", [e], rep) + Replace(d, [e], rep)
  {
    ReplaceCharConcat(a + " " + b + "," + c + " ", d, e, rep);
    ReplaceCharConcat(a + " " + b + "," + c, " ", e, rep);
    ReplaceCharConcat(a + " " + b + ",", c, e, rep);
    ReplaceCharConcat(a + " " + b, ",", e, rep);
    ReplaceCharConcat(a + " ", b, e, rep);
    ReplaceCharConcat(a, " ", e, rep);
  }

  /** Stripping `BOX(` from the box text leaves the coordinates and the closing parenthesis. */
  lemma StripBoxPrefix(body: string)
    requires '(' !in body
    ensures Replace("BOX(" + body + ")", "BOX(", "") == body + ")"
  {
    assert "BOX(" + body + ")" == "BOX(" + (body + ")");
    ReplaceLeading("BOX(", body + ")", "");
    ReplaceAbsent(body + ")", "BOX(", "", '(');
  }

  /** Deleting `)` from the coordinates and the closing parenthesis leaves the coordinates. */
  lemma StripClosingParenthesis(xmin: string, ymin: string, xmax: string, ymax: string)
    requires IsCoordinate(xmin) && IsCoordinate(ymin) && IsCoordinate(xmax) && IsCoordinate(ymax)
    ensures Replace(xmin + " " + ymin + "," + xmax + " " + ymax + ")", ")", "") ==
      xmin + " " + ymin + "," + xmax + " " + ymax
  {
    var body := xmin + " " + ymin + "," + xmax + " " + ymax;
    ReplaceCharConcat(body, ")", ')', "");
    ReplaceCharSingle(')', ')', "");
    ReplaceCharInBox(xmin, ymin, xmax, ymax, ')', "");
    ReplaceAbsent(xmin, ")", "", ')');
    ReplaceAbsent(ymin, ")", "", ')');
    ReplaceAbsent(xmax, ")", "", ')');
    ReplaceAbsent(ymax, ")", "", ')');
    ReplaceCharSingle(' ', ')', "");
    ReplaceCharSingle(',', ')', "");
    assert body + "" == body;
  }

  /** Turning the comma into a space separates all four coordinates by single spaces. */
  lemma CommaToSpace(xmin: string, ymin: string, xmax: string, ymax: string)
    requires IsCoordinate(xmin) && IsCoordinate(ymin) && IsCoordinate(xmax) && IsCoordinate(ymax)
    ensures Replace(xmin + " " + ymin + "," + xmax + " " + ymax, ",", " ") ==
      xmin + " " + ymin + " " + xmax + " " + ymax
  {
    ReplaceCharInBox(xmin, ymin, xmax, ymax, ',', " ");
    ReplaceAbsent(xmin, ",", " ", ',');
    ReplaceAbsent(ymin, ",", " ", ',');
    ReplaceAbsent(xmax, ",", " ", ',');
    ReplaceAbsent(ymax, ",", " ", ',');
    ReplaceCharSingle(' ', ',', " ");
    ReplaceCharSingle(',', ',', " ");
  }

  /** `BOX(a b,c d)` yields exactly the tokens a, b, c, d. */
  lemma BoxExtentTokens(xmin: string, ymin: string, xmax: string, ymax: string)
    requires IsCoordinate(xmin) && IsCoordinate(ymin) && IsCoordinate(xmax) && IsCoordinate(ymax)
    ensures ExtentTokens(Some(BoxText(xmin, ymin, xmax, ymax))) == [xmin, ymin, xmax, ymax]
  {
    var body := xmin + " " + ymin + "," + xmax + " " + ymax;
    assert BoxText(xmin, ymin, xmax, ymax) == "BOX(" + body + ")";
    assert '(' !in body;
    StripBoxPrefix(body);
    StripClosingParenthesis(xmin, ymin, xmax, ymax);
    CommaToSpace(xmin, ymin, xmax, ymax);
    SplitFourTokens(xmin, ymin, xmax, ymax);
  }
}
