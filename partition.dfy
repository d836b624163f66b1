/** The section plan that `Download.Do` builds before fetching: `TotalSections`
    inclusive byte ranges `[start, end]`, each starting one past the previous end. */
module Partition {

  /** One `[2]int` entry of the plan: an inclusive byte range. */
  datatype Section = Section(start: int, end: int)

  /** Go's `/` on ints with a positive divisor: truncation toward zero. */
  function GoDiv(a: int, b: int): (q: int)
    requires b >= 1
    ensures a >= 0 ==> 0 <= q * b <= a < q * b + b
    ensures a < 0 ==> a <= q * b <= 0 && q * b < a + b
  {
    var p := (if a >= 0 then a else -a) / b;
    DivBounds(if a >= 0 then a else -a, b);
    if a >= 0 then p else -p
  }

  lemma DivBounds(m: nat, b: int)
    requires b >= 1
    ensures 0 <= (m / b) * b <= m < (m / b) * b + b
    ensures -(m / b) * b == -((m / b) * b)
  {
    assert m == (m / b) * b + m % b;
  }

  /** `eachSize := size / d.TotalSections`. */
  function EachSize(size: int, n: int): int
    requires n >= 1
  {
    GoDiv(size, n)
  }

  /** The plan in closed form: section `i` starts at `i * (eachSize + 1)`; every
      section but the last spans `eachSize + 1` bytes; the last ends at `size - 1`. */
  function Layout(size: int, n: int): seq<Section>
    requires n >= 1
  {
    var e := EachSize(size, n);
    seq(n, i requires 0 <= i < n => Section(i * (e + 1), if i < n - 1 then i * (e + 1) + e else size - 1))
  }

  /** Fills a fresh slice of `n` sections the way the partition loop does: each
      start reads the previous entry's end. */
  method PlanSections(size: int, n: int) returns (sections: array<Section>)
    requires n >= 1
    ensures fresh(sections)
    ensures sections.Length == n
    ensures sections[..] == Layout(size, n)
  {
    sections := new Section[n];
    var eachSize := GoDiv(size, n);
    ghost var plan := Layout(size, n);
    for i := 0 to n
      invariant forall k :: 0 <= k < i ==> sections[k] == plan[k]
    {
      if i == 0 {
        sections[i] := sections[i].(start := 0);
      } else {
        sections[i] := sections[i].(start := sections[i - 1].end + 1);
        assert sections[i].start == (i - 1) * (eachSize + 1) + eachSize + 1;
      }
      if i < n - 1 {
        sections[i] := sections[i].(end := sections[i].start + eachSize);
      } else {
        sections[i] := sections[i].(end := size - 1);
      }
    }
  }

  /** Each section starts one past the end of the one before it. */
  ghost predicate Chained(secs: seq<Section>) {
    forall i, j :: 0 <= i < j < |secs| && j == i + 1 ==> secs[j].start == secs[i].end + 1
  }

  ghost predicate Holds(s: Section, b: int) {
    s.start <= b <= s.end
  }

  ghost predicate NonEmpty(secs: seq<Section>) {
    forall i :: 0 <= i < |secs| ==> secs[i].start <= secs[i].end
  }

  ghost predicate Covers(secs: seq<Section>, b: int) {
    exists i :: 0 <= i < |secs| && Holds(secs[i], b)
  }

  /** Sections are strictly increasing and do not overlap. */
  ghost predicate Ordered(secs: seq<Section>) {
    forall i, j :: 0 <= i < j < |secs| ==> secs[i].end < secs[j].start
  }

  /** `secs` covers every byte of `[0, size - 1]` exactly once and nothing else. */
  ghost predicate IsPartition(secs: seq<Section>, size: int) {
    NonEmpty(secs) &&
    (forall b :: 0 <= b < size <==> Covers(secs, b)) &&
    (forall i, j, b :: 0 <= i < |secs| && 0 <= j < |secs| && Holds(secs[i], b) && Holds(secs[j], b) ==> i == j)
  }

  /** The condition under which the as-written arithmetic leaves room for the last
      section: the first `n - 1` sections, `eachSize + 1` bytes each, end before `size`. */
  ghost predicate Fits(size: int, n: int)
    requires n >= 1
  {
    (n - 1) * (EachSize(size, n) + 1) <= size - 1
  }

  /** The shape the partition loop promises: `n` entries, the first starting at 0,
      each later one at the previous end + 1, every non-last one `eachSize + 1`
      bytes long, the last ending at `size - 1`. */
  lemma LayoutShape(size: int, n: int)
    requires n >= 1
    ensures var plan := Layout(size, n);
      |plan| == n && plan[0].start == 0 && plan[n - 1].end == size - 1 &&
      Chained(plan) &&
      (forall i :: 0 <= i < n ==> plan[i].start == i * (EachSize(size, n) + 1)) &&
      (forall i :: 0 <= i < n - 1 ==> plan[i].end - plan[i].start == EachSize(size, n))
  {
    var plan, e := Layout(size, n), EachSize(size, n);
    forall i | 0 < i < n ensures plan[i].start == plan[i - 1].end + 1 {
      assert i * (e + 1) == (i - 1) * (e + 1) + e + 1;
    }
  }

  /** Only a positive byte count can fit. */
  lemma FitsNeedsBytes(size: int, n: int)
    requires n >= 1 && Fits(size, n)
    ensures size >= 1 && EachSize(size, n) >= 0
  {
    var e := EachSize(size, n);
    assert (n - 1) * (e + 1) == n * e + (n - 1) - e;
  }

  /** Every section is a proper range exactly when the plan fits; otherwise the
      last section has `start > end` (for instance size 10 in 10 sections ends
      with `[18, 9]`). */
  lemma FitsIff(size: int, n: int)
    requires n >= 1
    ensures NonEmpty(Layout(size, n)) <==> Fits(size, n)
    ensures !Fits(size, n) ==> Layout(size, n)[n - 1].start > Layout(size, n)[n - 1].end
  {
    var plan := Layout(size, n);
    if Fits(size, n) {
      FitsNeedsBytes(size, n);
    } else {
      assert !(plan[n - 1].start <= plan[n - 1].end);
    }
  }

  lemma MulAtLeast(k: int, w: int)
    requires k >= 1 && w >= 1
    ensures k * w >= w
  {
    assert k * w == (k - 1) * w + w;
  }

  /** When the plan fits, every section lies inside `[0, size - 1]`. */
  lemma LayoutBounds(size: int, n: int, j: int)
    requires n >= 1 && Fits(size, n) && 0 <= j < n
    ensures 0 <= Layout(size, n)[j].start <= Layout(size, n)[j].end < size
  {
    var e := EachSize(size, n);
    FitsNeedsBytes(size, n);
    var w := e + 1;
    var start, last := j * w, (n - 1) * w;
    assert Layout(size, n)[j].start == start;
    assert last <= size - 1;
    if j == 0 {
      assert start == 0;
    } else {
      MulAtLeast(j, w);
    }
    if j < n - 1 {
      MulAtLeast(n - 1 - j, w);
      assert last - start == (n - 1 - j) * w;
      assert Layout(size, n)[j].end == start + e;
    } else {
      assert start == last;
      assert Layout(size, n)[j].end == size - 1;
    }
  }

  /** A chain of proper ranges from `lo` to `hi` is ordered and covers exactly `[lo, hi]`. */
  lemma {:induction false} ChainCovers(secs: seq<Section>, lo: int, hi: int)
    requires |secs| >= 1 && Chained(secs) && NonEmpty(secs)
    requires secs[0].start == lo && secs[|secs| - 1].end == hi
    ensures Ordered(secs)
    ensures forall b :: lo <= b <= hi <==> Covers(secs, b)
  {
    var n := |secs|;
    if n == 1 {
      forall b | lo <= b <= hi ensures Covers(secs, b) {
        assert Holds(secs[0], b);
      }
    } else {
      var init := secs[..n - 1];
      var m := secs[n - 1].start - 1;
      ChainCovers(init, lo, m);
      forall i | 0 <= i < n - 1 ensures lo <= secs[i].start && secs[i].end <= m {
        assert Holds(init[i], init[i].start) && Holds(init[i], init[i].end);
        assert Covers(init, init[i].start) && Covers(init, init[i].end);
      }
      forall b | lo <= b <= hi ensures Covers(secs, b) {
        if b <= m {
          assert Covers(init, b);
          var i :| 0 <= i < n - 1 && Holds(init[i], b);
          assert Holds(secs[i], b);
        } else {
          assert Holds(secs[n - 1], b);
        }
      }
    }
  }

  /** When the plan fits, its sections cover `[0, size - 1]` exactly once. */
  lemma LayoutPartitions(size: int, n: int)
    requires n >= 1 && Fits(size, n)
    ensures IsPartition(Layout(size, n), size)
  {
    var plan := Layout(size, n);
    LayoutShape(size, n);
    FitsIff(size, n);
    ChainCovers(plan, 0, size - 1);
    forall i, j, b | 0 <= i < n && 0 <= j < n && Holds(plan[i], b) && Holds(plan[j], b)
      ensures i == j
    {
    }
  }

  /** 20 bytes in 4 sections, as the code computes them (not the `[6,10],[11,15],
      [16,20]` of the comment above the loop); 10 bytes in 10 sections end in an
      inverted range; and 10 bytes in 5 sections do not fit either, so having no
      more sections than bytes is not enough: section 3 already runs past the end. */
  lemma Examples()
    ensures Layout(20, 4) == [Section(0, 5), Section(6, 11), Section(12, 17), Section(18, 19)]
    ensures Layout(10, 10)[9] == Section(18, 9) && !Fits(10, 10)
    ensures Layout(10, 5)[3] == Section(9, 11) && !Fits(10, 5)
  {
    assert EachSize(20, 4) == 5;
    assert EachSize(10, 10) == 1;
    assert EachSize(10, 5) == 2;
  }
}
