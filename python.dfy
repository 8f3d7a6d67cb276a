/**
 * The Python built-ins that the retrieval pipeline leans on, with the
 * semantics CPython gives them: `str.split()` with no separator,
 * `sep.join(xs)`, slicing `s[lo:hi]`, indexing `s[i]` with negative `i`,
 * and `range(start, stop, step)`.
 */
module Py {
  import opened Wrappers

  /** The characters `str.isspace()` accepts, which `str.split()` splits on. */
  predicate IsSpace(c: char) {
    var n := c as int;
    (9 <= n <= 13) || (28 <= n <= 32) || n == 0x85 || n == 0xA0 || n == 0x1680
    || (0x2000 <= n <= 0x200A) || n == 0x2028 || n == 0x2029 || n == 0x202F
    || n == 0x205F || n == 0x3000
  }

  /** A word as `str.split()` yields it: non-empty and free of whitespace. */
  predicate IsWord(w: string) {
    |w| > 0 && forall i :: 0 <= i < |w| ==> !IsSpace(w[i])
  }

  /**
   * `s.split()` while a word `cur` is being read: a whitespace character
   * ends the current word, any other character extends it.
   */
  function SplitFrom(s: string, cur: string): seq<string>
    decreases |s|
  {
    if s == [] then (if cur == [] then [] else [cur])
    else if IsSpace(s[0]) then (if cur == [] then [] else [cur]) + SplitFrom(s[1..], [])
    else SplitFrom(s[1..], cur + [s[0]])
  }

  /** `s.split()`: the maximal runs of non-whitespace characters, in order. */
  function Split(s: string): seq<string>
  {
    SplitFrom(s, [])
  }

  /** `sep.join(xs)`. */
  function Join(sep: string, xs: seq<string>): string
  {
    if xs == [] then "" else if |xs| == 1 then xs[0] else xs[0] + sep + Join(sep, xs[1..])
  }

  /** Where a slice bound `i` lands in a sequence of length `n`. */
  function ClampIndex(i: int, n: nat): (r: nat)
    ensures r <= n
    ensures 0 <= i <= n ==> r == i
    ensures i > n ==> r == n
    ensures i < 0 && i + n >= 0 ==> r == n + i
    ensures i + n < 0 ==> r == 0
  {
    if i < 0 then (if i + n < 0 then 0 else i + n) else if i > n then n else i
  }

  /** `s[lo:hi]`. */
  function Slice<T>(s: seq<T>, lo: int, hi: int): seq<T>
  {
    var a, b := ClampIndex(lo, |s|), ClampIndex(hi, |s|);
    if a <= b then s[a..b] else []
  }

  /** `s[i]`: `None` stands for the `IndexError` raised when `i` is out of range. */
  function Index<T>(s: seq<T>, i: int): (r: Option<T>)
    ensures r.Some? <==> -|s| <= i < |s|
    ensures 0 <= i < |s| ==> r == Some(s[i])
    ensures -|s| <= i < 0 ==> r == Some(s[|s| + i])
  {
    if -|s| <= i < |s| then Some(s[if i < 0 then |s| + i else i]) else None
  }

  /** Whether `range(·, stop, step)` goes on to yield `i`. */
  predicate InRange(i: int, stop: int, step: int) {
    (step > 0 && i < stop) || (step < 0 && i > stop)
  }

  /** `range(start, stop, step)`; a zero step raises `ValueError` and is excluded here. */
  function Range(start: int, stop: int, step: int): seq<int>
    requires step != 0
    decreases if step > 0 then stop - start else start - stop
  {
    if InRange(start, stop, step) then [start] + Range(start + step, stop, step) else []
  }

  // ---------------------------------------------------------------------
  // Properties of str.split and join
  // ---------------------------------------------------------------------

  lemma {:induction false} SplitFromWords(s: string, cur: string)
    requires forall i :: 0 <= i < |cur| ==> !IsSpace(cur[i])
    ensures forall j :: 0 <= j < |SplitFrom(s, cur)| ==> IsWord(SplitFrom(s, cur)[j])
    decreases |s|
  {
    if s != [] {
      if IsSpace(s[0]) {
        SplitFromWords(s[1..], []);
      } else {
        SplitFromWords(s[1..], cur + [s[0]]);
      }
    }
  }

  /** Every word `s.split()` yields is non-empty and free of whitespace. */
  lemma SplitWords(s: string)
    ensures forall j :: 0 <= j < |Split(s)| ==> IsWord(Split(s)[j])
  {
    SplitFromWords(s, []);
  }

  lemma {:induction false} SplitFromEmpty(s: string, cur: string)
    ensures SplitFrom(s, cur) == [] <==> cur == [] && forall i :: 0 <= i < |s| ==> IsSpace(s[i])
    decreases |s|
  {
    if s != [] {
      if IsSpace(s[0]) {
        SplitFromEmpty(s[1..], []);
        if forall i :: 0 <= i < |s| - 1 ==> IsSpace(s[1..][i]) {
          assert forall i :: 0 <= i < |s| ==> IsSpace(s[i]) by {
            forall i | 0 < i < |s| ensures IsSpace(s[i]) {
              assert s[i] == s[1..][i - 1];
            }
          }
        } else {
          var i :| 0 <= i < |s| - 1 && !IsSpace(s[1..][i]);
          assert !IsSpace(s[i + 1]);
        }
      } else {
        SplitFromEmpty(s[1..], cur + [s[0]]);
      }
    }
  }

  /** `s.split()` is empty exactly when `s` is empty or all whitespace. */
  lemma SplitEmptyIffBlank(s: string)
    ensures Split(s) == [] <==> forall i :: 0 <= i < |s| ==> IsSpace(s[i])
  {
    SplitFromEmpty(s, []);
  }

  /** Reading the characters of a word only extends the current word. */
  lemma {:induction false} SplitFromWord(w: string, rest: string, cur: string)
    requires forall i :: 0 <= i < |w| ==> !IsSpace(w[i])
    ensures SplitFrom(w + rest, cur) == SplitFrom(rest, cur + w)
    decreases |w|
  {
    if w != [] {
      assert (w + rest)[0] == w[0];
      assert (w + rest)[1..] == w[1..] + rest;
      SplitFromWord(w[1..], rest, cur + [w[0]]);
      assert cur + [w[0]] + w[1..] == cur + w;
    } else {
      assert w + rest == rest && cur + w == cur;
    }
  }

  /** Splitting words joined by single spaces gives the same words back. */
  lemma {:induction false} SplitJoin(ws: seq<string>)
    requires forall i :: 0 <= i < |ws| ==> IsWord(ws[i])
    ensures Split(Join(" ", ws)) == ws
    decreases |ws|
  {
    if ws == [] {
    } else if |ws| == 1 {
      SplitFromWord(ws[0], [], []);
      assert ws[0] + [] == ws[0] && [] + ws[0] == ws[0];
    } else {
      var w, rest := ws[0], Join(" ", ws[1..]);
      assert Join(" ", ws) == w + (" " + rest);
      SplitFromWord(w, " " + rest, []);
      assert [] + w == w;
      assert (" " + rest)[1..] == rest;
      assert SplitFrom(" " + rest, w) == [w] + SplitFrom(rest, []);
      SplitJoin(ws[1..]);
      assert [w] + ws[1..] == ws;
    }
  }

  // ---------------------------------------------------------------------
  // Properties of slicing and range
  // ---------------------------------------------------------------------

  /** `s[lo:hi]` with `0 <= lo`: the elements from `lo` up to `hi`, both capped at `len(s)`. */
  lemma SliceNonNegative<T>(s: seq<T>, lo: int, hi: int)
    requires 0 <= lo <= hi
    ensures var a := if lo < |s| then lo else |s|;
            var b := if hi < |s| then hi else |s|;
            Slice(s, lo, hi) == s[a..b]
  {
  }

  /** `s[-k:]` with `k > 0` is the last `min(k, len(s))` elements of `s` (`s[-0:]` is all of `s`). */
  lemma SliceLast<T>(s: seq<T>, k: nat)
    requires k > 0
    ensures var r := Slice(s, -(k as int), |s|);
            |r| == (if k < |s| then k else |s|) && s == s[..|s| - |r|] + r
  {
  }

  /** `s[:n]` with `n >= 0` is the prefix of `s` of length `min(n, len(s))`. */
  lemma SlicePrefix<T>(s: seq<T>, n: nat)
    ensures var r := Slice(s, 0, n);
            |r| == (if n < |s| then n else |s|) && r == s[..|r|]
  {
  }

  /**
   * With a positive step, `range(start, stop, step)` yields exactly
   * `start, start + step, start + 2*step, ...` below `stop`: its
   * length is the least count that reaches `stop`.
   */
  lemma {:induction false} RangeAscending(start: int, stop: int, step: int)
    requires step > 0
    ensures var r := Range(start, stop, step);
            (forall j :: 0 <= j < |r| ==> r[j] == start + j * step && r[j] < stop)
            && start + |r| * step >= stop
    decreases stop - start
  {
    var r := Range(start, stop, step);
    if start < stop {
      var t := Range(start + step, stop, step);
      RangeAscending(start + step, stop, step);
      assert r == [start] + t;
      forall j | 0 <= j < |r|
        ensures r[j] == start + j * step && r[j] < stop
      {
        if j > 0 {
          assert r[j] == t[j - 1] == start + step + (j - 1) * step;
          assert step + (j - 1) * step == j * step;
        }
      }
      assert start + step + |t| * step == start + |r| * step;
    }
  }

  /** Hence, with a positive step, `len(range(start, stop, step)) == ceil((stop - start) / step)`. */
  lemma RangeLength(start: int, stop: int, step: int)
    requires step > 0 && start <= stop
    ensures |Range(start, stop, step)| == (stop - start + step - 1) / step
  {
    var r := Range(start, stop, step);
    RangeAscending(start, stop, step);
    if start < stop {
      var c, d := |r|, stop - start;
      assert c > 0;
      assert (c - 1) * step < d by {
        assert r[c - 1] == start + (c - 1) * step < stop;
      }
      assert c * step >= d;
      CeilDiv(c, d, step);
    } else {
      assert r == [];
      DivUnique(step - 1, step, 0, step - 1);
    }
  }

  lemma CeilDiv(c: nat, d: int, s: int)
    requires s > 0 && d > 0 && c > 0
    requires (c - 1) * s < d <= c * s
    ensures (d + s - 1) / s == c
  {
    var x := d + s - 1;
    assert c * s <= x < c * s + s;
    var m := x - c * s;
    assert x == c * s + m && 0 <= m < s;
    DivUnique(x, s, c, m);
  }

  lemma DivUnique(x: int, s: int, q: int, m: int)
    requires s > 0 && 0 <= m < s && x == q * s + m
    ensures x / s == q
  {
    var q', m' := x / s, x % s;
    assert x == q' * s + m' && 0 <= m' < s;
    assert q * s - q' * s == m' - m;
    assert (q - q') * s == q * s - q' * s;
    if q' < q {
      MulAtLeast(q - q', s);
    } else if q' > q {
      MulAtLeast(q' - q, s);
    }
  }

  lemma MulAtLeast(a: int, s: int)
    requires a >= 1 && s > 0
    ensures a * s >= s
  {
    assert a * s - s == (a - 1) * s;
  }

  /** A negative step from a start at or below `stop` yields nothing. */
  lemma RangeDescendingEmpty(start: int, stop: int, step: int)
    requires step < 0 && start <= stop
    ensures Range(start, stop, step) == []
  {
  }
}
