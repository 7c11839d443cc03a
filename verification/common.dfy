/**
 * Small building blocks shared by every component model: an optional value,
 * the JavaScript truthiness rules the site leans on (`x || default`), ASCII
 * case folding, substring search, "cut at the first separator", order-keeping
 * filtering and first-occurrence de-duplication (what `[...new Set(xs)]`
 * produces).
 */
module Common {

  /** An absent value (`undefined` or `null`) or a present one. */
  datatype Option<T> = None | Some(value: T)
  {
    /** `o ?? d` */
    function GetOr(d: T): T {
      match this
      case Some(v) => v
      case None => d
    }
  }

  /** What a component shows for an index into its list. */
  datatype View<T> =
    | Hidden          // the list is empty and nothing is rendered
    | Shows(item: T)  // the element at the index
    | Fails           // the index is outside the list: reading a field of `undefined` throws

  /** The indices `0 .. len - 1` that `xs.map((_, index) => ...)` hands out. */
  function Indices(len: nat): (ds: seq<int>)
    ensures |ds| == len
    ensures forall k :: 0 <= k < len ==> ds[k] == k
  {
    seq(len, k requires 0 <= k < len => k)
  }

  /** The indices handed out are exactly the positions of the list. */
  lemma IndicesAreTheRange(len: nat, i: int)
    ensures i in Indices(len) <==> 0 <= i < len
  {
    if 0 <= i < len {
      assert Indices(len)[i] == i;
    }
  }

  // ---------------------------------------------------------------------------
  // JavaScript truthiness for optional strings
  // ---------------------------------------------------------------------------

  /** A string-valued field is truthy when it is present and not "". */
  predicate Truthy(o: Option<string>) {
    o.Some? && o.value != ""
  }

  /** `o || d` for an optional string field. */
  function OrElse(o: Option<string>, d: string): string {
    if Truthy(o) then o.value else d
  }

  // ---------------------------------------------------------------------------
  // ASCII case folding (`toLowerCase` restricted to ASCII)
  // ---------------------------------------------------------------------------

  predicate IsUpper(c: char) { 'A' <= c <= 'Z' }

  function LowerChar(c: char): char {
    if IsUpper(c) then (c as int + 32) as char else c
  }

  function Lower(s: string): string {
    seq(|s|, i requires 0 <= i < |s| => LowerChar(s[i]))
  }

  /** Folding keeps the length, removes every upper-case letter and is idempotent. */
  lemma LowerProperties(s: string)
    ensures |Lower(s)| == |s|
    ensures forall i :: 0 <= i < |s| ==> !IsUpper(Lower(s)[i])
    ensures Lower(Lower(s)) == Lower(s)
  {
  }

  // ---------------------------------------------------------------------------
  // Substring search (`String.prototype.includes`)
  // ---------------------------------------------------------------------------

  /** `needle` occurs in `hay` starting at position `i`. */
  predicate OccursAt(hay: string, needle: string, i: int) {
    0 <= i && i + |needle| <= |hay| && hay[i..i + |needle|] == needle
  }

  /** `hay.includes(needle)`, scanning from the left. */
  function Includes(hay: string, needle: string): (b: bool)
    ensures b <==> exists i :: OccursAt(hay, needle, i)
    decreases |hay|
  {
    if |needle| <= |hay| && hay[..|needle|] == needle then
      assert OccursAt(hay, needle, 0);
      true
    else if |hay| == 0 then
      false
    else
      var b := Includes(hay[1..], needle);
      assert forall i :: OccursAt(hay[1..], needle, i) ==> OccursAt(hay, needle, i + 1) by {
        forall i | OccursAt(hay[1..], needle, i)
          ensures OccursAt(hay, needle, i + 1)
        {
          assert hay[1..][i..i + |needle|] == hay[i + 1..i + 1 + |needle|];
        }
      }
      assert forall i :: OccursAt(hay, needle, i) ==> OccursAt(hay[1..], needle, i - 1) by {
        forall i | OccursAt(hay, needle, i)
          ensures OccursAt(hay[1..], needle, i - 1)
        {
          assert i != 0;
          assert hay[1..][i - 1..i - 1 + |needle|] == hay[i..i + |needle|];
        }
      }
      b
  }

  // ---------------------------------------------------------------------------
  // Cutting at the first separator (`s.split(c)[0]`)
  // ---------------------------------------------------------------------------

  /**
   * The first element of `s.split(c)`: everything before the first `c`, or
   * the whole of `s` when it has none.
   */
  function PrefixBefore(s: string, c: char): (r: string)
    ensures r <= s
    ensures c !in r
    ensures r == s || s[|r|] == c
  {
    if |s| == 0 || s[0] == c then []
    else [s[0]] + PrefixBefore(s[1..], c)
  }

  // ---------------------------------------------------------------------------
  // Order-keeping filter (`Array.prototype.filter`)
  // ---------------------------------------------------------------------------

  function Filter<T(!new)>(xs: seq<T>, f: T -> bool): (r: seq<T>)
    ensures |r| <= |xs|
    ensures forall x :: x in r <==> x in xs && f(x)
  {
    if |xs| == 0 then []
    else if f(xs[0]) then [xs[0]] + Filter(xs[1..], f)
    else Filter(xs[1..], f)
  }

  /** `Filter` distributes over concatenation: it keeps the input order. */
  lemma {:induction false} FilterAppend<T(!new)>(xs: seq<T>, ys: seq<T>, f: T -> bool)
    ensures Filter(xs + ys, f) == Filter(xs, f) + Filter(ys, f)
    decreases |xs|
  {
    if |xs| == 0 {
      assert xs + ys == ys;
    } else {
      assert (xs + ys)[1..] == xs[1..] + ys;
      FilterAppend(xs[1..], ys, f);
    }
  }

  /** `Filter` keeps every copy of a kept value and no copy of a dropped one. */
  lemma {:induction false} FilterCount<T(!new)>(xs: seq<T>, f: T -> bool, x: T)
    ensures multiset(Filter(xs, f))[x] == if f(x) then multiset(xs)[x] else 0
    decreases |xs|
  {
    if |xs| > 0 {
      FilterCount(xs[1..], f, x);
      assert xs == [xs[0]] + xs[1..];
      assert multiset(xs) == multiset([xs[0]]) + multiset(xs[1..]);
      if f(xs[0]) {
        assert multiset(Filter(xs, f)) == multiset([xs[0]]) + multiset(Filter(xs[1..], f));
      }
    }
  }

  /** `sub` is obtained from `xs` by deleting elements. */
  predicate IsSubsequence<T(==)>(sub: seq<T>, xs: seq<T>)
    decreases |xs|
  {
    if |sub| == 0 then true
    else if |xs| == 0 then false
    else if sub[0] == xs[0] then IsSubsequence(sub[1..], xs[1..])
    else IsSubsequence(sub, xs[1..])
  }

  /** Skipping the first element of `xs` keeps `sub` a subsequence of it. */
  lemma {:induction false} SubsequenceSkip<T>(sub: seq<T>, xs: seq<T>)
    requires |xs| > 0
    requires IsSubsequence(sub, xs[1..])
    ensures IsSubsequence(sub, xs)
    decreases |sub| + |xs|, 1
  {
    if |sub| > 0 && sub[0] == xs[0] {
      SubsequenceDropFirst(sub, xs[1..]);
    }
  }

  /** Dropping the head of a subsequence keeps it a subsequence. */
  lemma {:induction false} SubsequenceDropFirst<T>(sub: seq<T>, ys: seq<T>)
    requires |sub| > 0
    requires IsSubsequence(sub, ys)
    ensures IsSubsequence(sub[1..], ys)
    decreases |sub| + |ys|, 0
  {
    if sub[0] == ys[0] {
      if |ys| > 0 {
        SubsequenceSkip(sub[1..], ys);
      }
    } else {
      SubsequenceDropFirst(sub, ys[1..]);
      SubsequenceSkip(sub[1..], ys);
    }
  }

  /** Keeping the first element of `xs` extends a subsequence of its tail. */
  lemma SubsequenceCons<T>(sub: seq<T>, xs: seq<T>)
    requires |xs| > 0
    requires IsSubsequence(sub, xs[1..])
    ensures IsSubsequence([xs[0]] + sub, xs)
  {
    assert ([xs[0]] + sub)[1..] == sub;
  }

  /** A subsequence of a duplicate-free list is duplicate-free. */
  lemma {:induction false} SubsequenceKeepsDistinct<T>(sub: seq<T>, xs: seq<T>)
    requires Distinct(xs)
    requires IsSubsequence(sub, xs)
    ensures Distinct(sub)
    decreases |xs|
  {
    if |sub| > 0 {
      assert Distinct(xs[1..]) by {
        forall a, c | 0 <= a < c < |xs[1..]|
          ensures xs[1..][a] != xs[1..][c]
        {
          assert xs[1..][a] == xs[a + 1] && xs[1..][c] == xs[c + 1];
        }
      }
      if sub[0] == xs[0] {
        SubsequenceKeepsDistinct(sub[1..], xs[1..]);
        forall k | 0 < k < |sub|
          ensures sub[k] != sub[0]
        {
          assert sub[k] == sub[1..][k - 1];
          SubsequenceMember(sub[1..], xs[1..], k - 1);
        }
      } else {
        SubsequenceKeepsDistinct(sub, xs[1..]);
      }
    }
  }

  /** Every element of a subsequence occurs in the list. */
  lemma {:induction false} SubsequenceMember<T>(sub: seq<T>, xs: seq<T>, k: nat)
    requires IsSubsequence(sub, xs)
    requires k < |sub|
    ensures sub[k] in xs
    decreases |xs|
  {
    if sub[0] == xs[0] {
      if k > 0 {
        SubsequenceMember(sub[1..], xs[1..], k - 1);
        assert sub[k] == sub[1..][k - 1];
      }
    } else {
      SubsequenceMember(sub, xs[1..], k);
    }
  }

  lemma {:induction false} FilterIsSubsequence<T(!new)>(xs: seq<T>, f: T -> bool)
    ensures IsSubsequence(Filter(xs, f), xs)
    decreases |xs|
  {
    if |xs| > 0 {
      FilterIsSubsequence(xs[1..], f);
      if f(xs[0]) {
        assert Filter(xs, f)[1..] == Filter(xs[1..], f);
      }
    }
  }

  // ---------------------------------------------------------------------------
  // First-occurrence de-duplication (`[...new Set(xs)]`)
  // ---------------------------------------------------------------------------

  predicate Distinct<T(==)>(xs: seq<T>) {
    forall i, j :: 0 <= i < j < |xs| ==> xs[i] != xs[j]
  }

  /** The position of the first `x` in `xs` (`xs.indexOf(x)`). */
  function FirstIndex<T(==)>(xs: seq<T>, x: T): (i: nat)
    requires x in xs
    ensures i < |xs| && xs[i] == x
    ensures forall j :: 0 <= j < i ==> xs[j] != x
  {
    if xs[0] == x then 0 else 1 + FirstIndex(xs[1..], x)
  }

  /**
   * Inserting the elements of `xs` one by one into a JavaScript `Set` and
   * spreading it: each value once, at the place of its first occurrence.
   */
  function Dedup<T(==,!new)>(xs: seq<T>): (r: seq<T>)
    ensures Distinct(r)
    ensures forall x :: x in r <==> x in xs
    decreases |xs|
  {
    if |xs| == 0 then []
    else
      var init := xs[..|xs| - 1];
      var last := xs[|xs| - 1];
      assert xs == init + [last];
      var r := Dedup(init);
      if last in r then r else r + [last]
  }

  /** Dedup of one more element: the new value is appended exactly when it is new. */
  lemma DedupSnoc<T(!new)>(xs: seq<T>, x: T)
    ensures Dedup(xs + [x]) == if x in xs then Dedup(xs) else Dedup(xs) + [x]
  {
    assert (xs + [x])[..|xs + [x]| - 1] == xs;
  }

  lemma FirstIndexOfPrefix<T>(xs: seq<T>, k: nat, y: T)
    requires k <= |xs|
    requires y in xs[..k]
    ensures FirstIndex(xs, y) == FirstIndex(xs[..k], y)
  {
    var a := FirstIndex(xs, y);
    var b := FirstIndex(xs[..k], y);
    assert xs[b] == y;
    assert a <= b;
    assert xs[..k][a] == y;
  }

  /** `Dedup` lists values in the order of their first occurrence in the input. */
  lemma {:induction false} DedupFirstOccurrenceOrder<T(!new)>(xs: seq<T>)
    ensures forall i, j :: 0 <= i < j < |Dedup(xs)| ==>
      FirstIndex(xs, Dedup(xs)[i]) < FirstIndex(xs, Dedup(xs)[j])
    decreases |xs|
  {
    if |xs| > 0 {
      var n := |xs| - 1;
      var init := xs[..n];
      var last := xs[n];
      var r := Dedup(init);
      DedupFirstOccurrenceOrder(init);
      forall y | y in r
        ensures FirstIndex(xs, y) == FirstIndex(init, y) < n
      {
        FirstIndexOfPrefix(xs, n, y);
      }
      if last !in r {
        assert last !in init;
        assert FirstIndex(xs, last) == n;
      }
    }
  }
}
