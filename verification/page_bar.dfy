/**
 * The row of numbered page controls under the list (`renderPageNumbers`):
 * a sliding window of at most five page numbers around the current page,
 * with the first and last page always present and an ellipsis standing in
 * for every run of pages left out.
 */
module PageBar {
  import opened JsValues
  import opened Paging

  /** Width of the sliding window (`pageLimit`). */
  const PageLimit := 5

  /** One control of the bar: a page button or an ellipsis marker. */
  datatype Control = Num(n: int) | Ellipsis

  /** The inclusive range `[start, end]` of page numbers shown around the current page. */
  datatype Window = Window(start: int, end: int)

  /**
   * The window computed from the current page: centred on it where
   * possible, pushed back inside `[1, totalPage]` at either end, and as
   * wide as the page count allows up to `PageLimit`.
   */
  function PageWindow(page: int, totalPage: int): (w: Window)
    ensures 1 <= w.start
    ensures w.end <= totalPage
    ensures w.end - w.start <= PageLimit - 1
    ensures totalPage >= 1 ==> w.end - w.start + 1 == Min(PageLimit, totalPage)
    ensures totalPage < PageLimit ==> w == Window(1, totalPage)
    ensures 1 <= page <= totalPage ==> w.start <= page <= w.end
    ensures PageLimit / 2 < page <= totalPage - PageLimit / 2 ==>
              w == Window(page - PageLimit / 2, page + PageLimit / 2)
  {
    var start := Max(1, page - PageLimit / 2);
    var end := Min(totalPage, start + PageLimit - 1);
    if end - start < PageLimit - 1 then Window(Max(1, end - PageLimit + 1), end)
    else Window(start, end)
  }

  /** With twenty pages the window is 1-5 on page 1, 8-12 on page 10 and 16-20 on page 20. */
  lemma PageWindowExamples()
    ensures PageWindow(1, 20) == Window(1, 5)
    ensures PageWindow(10, 20) == Window(8, 12)
    ensures PageWindow(20, 20) == Window(16, 20)
  {
  }

  /** The integers `a, a+1, ..., b` (empty when `b < a`). */
  function Range(a: int, b: int): (ns: seq<int>)
    ensures |ns| == Max(0, b - a + 1)
    ensures forall i :: 0 <= i < |ns| ==> ns[i] == a + i
  {
    seq(Max(0, b - a + 1), i => a + i)
  }

  /** Buttons for the pages `a` to `b`. */
  function NumRange(a: int, b: int): (r: seq<Control>)
    ensures |r| == Max(0, b - a + 1)
    ensures forall i :: 0 <= i < |r| ==> r[i] == Num(a + i)
  {
    seq(Max(0, b - a + 1), i => Num(a + i))
  }

  /** Page 1 and the left ellipsis, shown when the window starts after page 1. */
  function Leading(start: int): seq<Control> {
    if start > 1 then [Num(1)] + (if start > 2 then [Ellipsis] else []) else []
  }

  /** The right ellipsis and the last page, shown when the window ends before the last page. */
  function Trailing(end: int, totalPage: int): seq<Control> {
    if end < totalPage then (if end < totalPage - 1 then [Ellipsis] else []) + [Num(totalPage)] else []
  }

  /**
   * `renderPageNumbers()` with the markup replaced by tokens: a leading
   * page 1 and left ellipsis, the window, a right ellipsis and a trailing
   * last page. A NaN page fails every comparison, so nothing is emitted.
   */
  function RenderPageNumbers(page: JsNumber, totalPage: int): seq<Control> {
    match page
    case NaN => []
    case Int(p) =>
      var w := PageWindow(p, totalPage);
      Leading(w.start) + NumRange(w.start, w.end) + Trailing(w.end, totalPage)
  }

  /** The page numbers of a bar, in order, ellipses dropped. */
  function Numbers(r: seq<Control>): seq<int> {
    if r == [] then [] else (if r[0].Num? then [r[0].n] else []) + Numbers(r[1..])
  }

  predicate StrictlyIncreasing(ns: seq<int>) {
    forall i, j :: 0 <= i < j < |ns| ==> ns[i] < ns[j]
  }

  /**
   * An ellipsis sits only between two page numbers that are more than one
   * apart (so never first, last or next to another ellipsis), and two page
   * numbers with nothing between them are consecutive.
   */
  predicate EllipsesMarkGaps(r: seq<Control>) {
    EllipsesBetweenGaps(r) && AdjacentNumbersConsecutive(r)
  }

  predicate EllipsesBetweenGaps(r: seq<Control>) {
    forall k :: 0 <= k < |r| && r[k].Ellipsis? ==>
      0 < k < |r| - 1 && r[k - 1].Num? && r[k + 1].Num? && r[k + 1].n > r[k - 1].n + 1
  }

  predicate AdjacentNumbersConsecutive(r: seq<Control>) {
    forall k :: 0 < k < |r| && r[k].Num? && r[k - 1].Num? ==> r[k].n == r[k - 1].n + 1
  }

  lemma {:induction false} NumbersAppend(a: seq<Control>, b: seq<Control>)
    ensures Numbers(a + b) == Numbers(a) + Numbers(b)
  {
    if a != [] {
      assert (a + b)[1..] == a[1..] + b;
      NumbersAppend(a[1..], b);
    } else {
      assert a + b == b;
    }
  }

  lemma {:induction false} NumInNumbers(r: seq<Control>, i: int)
    ensures Num(i) in r <==> i in Numbers(r)
  {
    if r != [] {
      NumInNumbers(r[1..], i);
      assert r == [r[0]] + r[1..];
    }
  }

  /**
   * The reference bar for a strictly increasing list of page numbers: each
   * number as a button, with an ellipsis between two neighbours that are
   * more than one apart.
   */
  function Interleave(ns: seq<int>): (r: seq<Control>)
    ensures ns != [] ==> r != [] && r[0] == Num(ns[0]) && r[|r| - 1] == Num(ns[|ns| - 1])
    decreases |ns|
  {
    if ns == [] then []
    else if |ns| == 1 then [Num(ns[0])]
    else [Num(ns[0])] + Gap(ns[0], ns[1]) + Interleave(ns[1..])
  }

  /** Dropping the ellipses from the reference bar gives back its page numbers. */
  lemma {:induction false} InterleaveNumbers(ns: seq<int>)
    ensures Numbers(Interleave(ns)) == ns
    decreases |ns|
  {
    if |ns| > 1 {
      var gap := Gap(ns[0], ns[1]);
      var head := [Num(ns[0])] + gap;
      assert Interleave(ns) == head + Interleave(ns[1..]);
      InterleaveNumbers(ns[1..]);
      NumbersAppend(head, Interleave(ns[1..]));
      NumbersAppend([Num(ns[0])], gap);
      assert Numbers(gap) == [] by {
        if gap != [] {
          assert gap[1..] == [];
        }
      }
      assert Numbers([Num(ns[0])]) == [ns[0]] by {
        assert [Num(ns[0])][1..] == [];
      }
      assert ns == [ns[0]] + ns[1..];
    }
  }

  /** Putting a smaller page number, and the ellipsis its gap calls for, in front of a well-formed bar keeps it well formed. */
  lemma GapsPrepend(x: int, rest: seq<Control>)
    requires rest != [] && rest[0].Num? && rest[0].n > x
    requires EllipsesMarkGaps(rest)
    ensures EllipsesMarkGaps([Num(x)] + Gap(x, rest[0].n) + rest)
  {
    var head := [Num(x)] + Gap(x, rest[0].n);
    var r := head + rest;
    forall k | 0 <= k < |r| && r[k].Ellipsis?
      ensures 0 < k < |r| - 1 && r[k - 1].Num? && r[k + 1].Num? && r[k + 1].n > r[k - 1].n + 1
    {
      if k < |head| {
        assert r[k + 1] == rest[0];
      } else {
        var j := k - |head|;
        assert r[k] == rest[j];
        assert r[k - 1] == rest[j - 1] && r[k + 1] == rest[j + 1];
      }
    }
    forall k | 0 < k < |r| && r[k].Num? && r[k - 1].Num?
      ensures r[k].n == r[k - 1].n + 1
    {
      if k == |head| {
        assert r[k] == rest[0];
      } else {
        var j := k - |head|;
        assert r[k] == rest[j] && r[k - 1] == rest[j - 1];
      }
    }
  }

  /** The reference bar places its ellipses exactly at the gaps. */
  lemma {:induction false} InterleaveMarksGaps(ns: seq<int>)
    requires StrictlyIncreasing(ns)
    ensures EllipsesMarkGaps(Interleave(ns))
    decreases |ns|
  {
    if |ns| > 1 {
      assert StrictlyIncreasing(ns[1..]);
      InterleaveMarksGaps(ns[1..]);
      GapsPrepend(ns[0], Interleave(ns[1..]));
    }
  }

  lemma {:induction false} InterleaveRange(a: int, b: int)
    ensures Interleave(Range(a, b)) == NumRange(a, b)
    decreases b - a
  {
    if b > a {
      var ns := Range(a, b);
      assert ns[1..] == Range(a + 1, b);
      InterleaveRange(a + 1, b);
      assert Interleave(ns) == [Num(a)] + NumRange(a + 1, b);
    } else if b == a {
      assert Range(a, b) == [a];
    } else {
      assert Range(a, b) == [];
    }
  }

  /** The ellipsis the reference bar puts between neighbours `a` and `b`, if any. */
  function Gap(a: int, b: int): seq<Control> {
    if b - a > 1 then [Ellipsis] else []
  }

  lemma InterleaveCons(x: int, ns: seq<int>)
    requires ns != []
    ensures Interleave([x] + ns) == [Num(x)] + Gap(x, ns[0]) + Interleave(ns)
  {
    assert ([x] + ns)[1..] == ns;
  }

  lemma {:induction false} InterleaveSnoc(ns: seq<int>, y: int)
    requires ns != []
    ensures Interleave(ns + [y]) == Interleave(ns) + Gap(ns[|ns| - 1], y) + [Num(y)]
    decreases |ns|
  {
    var x := ns[0];
    if |ns| == 1 {
      assert ns + [y] == [x] + [y];
      InterleaveCons(x, [y]);
    } else {
      var t := ns[1..];
      assert ns == [x] + t;
      assert ns + [y] == [x] + (t + [y]);
      InterleaveCons(x, t + [y]);
      InterleaveSnoc(t, y);
      InterleaveCons(x, t);
      var e := Gap(x, t[0]);
      var e' := Gap(t[|t| - 1], y);
      var it := Interleave(t);
      assert Interleave(ns + [y]) == [Num(x)] + e + (it + e' + [Num(y)]);
      assert Interleave(ns) == [Num(x)] + e + it;
      assert [Num(x)] + e + (it + e' + [Num(y)]) == ([Num(x)] + e + it) + e' + [Num(y)];
    }
  }

  /**
   * The page numbers the bar shows, stated independently of the markup:
   * page 1, the last page and the window, in increasing order.
   */
  function ShownPages(page: int, totalPage: int): seq<int> {
    var w := PageWindow(page, totalPage);
    FirstPages(w.start) + Range(w.start, w.end) + LastPages(w.end, totalPage)
  }

  /** The shown pages strictly increase and number at most seven. */
  lemma ShownPagesIncreasing(page: int, totalPage: int)
    ensures StrictlyIncreasing(ShownPages(page, totalPage))
    ensures |ShownPages(page, totalPage)| <= PageLimit + 2
  {
    var w := PageWindow(page, totalPage);
    var first := FirstPages(w.start);
    var mid := Range(w.start, w.end);
    ConcatIncreasing(first, mid);
    ConcatIncreasing(first + mid, LastPages(w.end, totalPage));
  }

  /** With at least one page, the shown pages run from page 1 to the last page. */
  lemma ShownPagesEnds(page: int, totalPage: int)
    requires totalPage >= 1
    ensures var ns := ShownPages(page, totalPage); ns != [] && ns[0] == 1 && ns[|ns| - 1] == totalPage
  {
    var w := PageWindow(page, totalPage);
    var mid := Range(w.start, w.end);
    assert mid != [] && mid[0] == w.start && mid[|mid| - 1] == w.end;
  }

  /** The shown pages are exactly page 1, the last page and the window. */
  lemma ShownPagesMembers(page: int, totalPage: int)
    ensures forall i :: i in ShownPages(page, totalPage) <==>
              1 <= i <= totalPage &&
              (i == 1 || i == totalPage || PageWindow(page, totalPage).start <= i <= PageWindow(page, totalPage).end)
  {
    var w := PageWindow(page, totalPage);
    var first := FirstPages(w.start);
    var mid := Range(w.start, w.end);
    var last := LastPages(w.end, totalPage);
    forall i
      ensures i in first + mid + last <==> 1 <= i <= totalPage && (i == 1 || i == totalPage || w.start <= i <= w.end)
    {
      if w.start <= i <= w.end {
        assert mid[i - w.start] == i;
      }
      assert i in first + mid + last <==> i in first || i in mid || i in last;
    }
  }

  /** Joining two increasing lists, the first ending below where the second starts, keeps them increasing. */
  lemma ConcatIncreasing(a: seq<int>, b: seq<int>)
    requires StrictlyIncreasing(a) && StrictlyIncreasing(b)
    requires a != [] && b != [] ==> a[|a| - 1] < b[0]
    ensures StrictlyIncreasing(a + b)
  {
    var c := a + b;
    forall i, j | 0 <= i < j < |c|
      ensures c[i] < c[j]
    {
      if i < |a| && j >= |a| {
        assert c[i] <= a[|a| - 1] && b[0] <= c[j];
      }
    }
  }

  function FirstPages(start: int): seq<int> {
    if start > 1 then [1] else []
  }

  function LastPages(end: int, totalPage: int): seq<int> {
    if end < totalPage then [totalPage] else []
  }

  /** The part of the bar up to the end of the window. */
  lemma LeftPartMatches(start: int, end: int)
    requires 1 <= start <= end
    ensures Interleave(FirstPages(start) + Range(start, end)) == Leading(start) + NumRange(start, end)
  {
    var mid := Range(start, end);
    var nums := NumRange(start, end);
    InterleaveRange(start, end);
    assert Interleave(mid) == nums;
    if start > 1 {
      assert mid[0] == start;
      InterleaveCons(1, mid);
      var g := Gap(1, start);
      assert FirstPages(start) == [1];
      assert Leading(start) == [Num(1)] + g;
    } else {
      assert FirstPages(start) + mid == mid;
      assert Leading(start) + nums == nums;
    }
  }

  /** For a non-empty window inside `[1, totalPage]`, the bar is the reference bar of its pages. */
  lemma WindowPartsMatch(start: int, end: int, totalPage: int)
    requires 1 <= start <= end <= totalPage
    ensures Leading(start) + NumRange(start, end) + Trailing(end, totalPage) ==
            Interleave(FirstPages(start) + Range(start, end) + LastPages(end, totalPage))
  {
    var left := FirstPages(start) + Range(start, end);
    LeftPartMatches(start, end);
    assert left[|left| - 1] == end;
    if end < totalPage {
      InterleaveSnoc(left, totalPage);
      assert Gap(end, totalPage) == (if end < totalPage - 1 then [Ellipsis] else []);
    } else {
      assert left + [] == left;
      assert Leading(start) + NumRange(start, end) + [] == Leading(start) + NumRange(start, end);
    }
  }

  /** The rendered bar is the reference bar of the shown pages. */
  lemma RenderMatchesReference(page: int, totalPage: int)
    ensures RenderPageNumbers(Int(page), totalPage) == Interleave(ShownPages(page, totalPage))
  {
    var w := PageWindow(page, totalPage);
    if totalPage >= 1 {
      WindowPartsMatch(w.start, w.end, totalPage);
    } else {
      assert Range(w.start, w.end) == [];
      assert NumRange(w.start, w.end) == [];
    }
  }

  /**
   * The bar is empty for a NaN page or when there are no pages; otherwise
   * it starts with page 1 and ends with the last page.
   */
  lemma PageNumbersEnds(page: JsNumber, totalPage: int)
    ensures page.NaN? || totalPage < 1 ==> RenderPageNumbers(page, totalPage) == []
    ensures page.Int? && totalPage >= 1 ==>
              var r := RenderPageNumbers(page, totalPage);
              r != [] && r[0] == Num(1) && r[|r| - 1] == Num(totalPage)
  {
    if page.Int? {
      RenderMatchesReference(page.value, totalPage);
      if totalPage < 1 {
        assert ShownPages(page.value, totalPage) == [];
      } else {
        ShownPagesEnds(page.value, totalPage);
      }
    }
  }

  /**
   * The bar's page numbers strictly increase (so none repeats), there are
   * at most seven of them, and its ellipses stand exactly for the gaps.
   */
  lemma PageNumbersOrdered(page: JsNumber, totalPage: int)
    ensures StrictlyIncreasing(Numbers(RenderPageNumbers(page, totalPage)))
    ensures |Numbers(RenderPageNumbers(page, totalPage))| <= PageLimit + 2
    ensures EllipsesMarkGaps(RenderPageNumbers(page, totalPage))
  {
    if page.Int? {
      var ns := ShownPages(page.value, totalPage);
      RenderMatchesReference(page.value, totalPage);
      ShownPagesIncreasing(page.value, totalPage);
      InterleaveNumbers(ns);
      InterleaveMarksGaps(ns);
    }
  }

  /** The buttons of the bar are exactly the shown pages. */
  lemma RenderedNumbersAreShownPages(page: int, totalPage: int)
    ensures forall i :: Num(i) in RenderPageNumbers(Int(page), totalPage) <==> i in ShownPages(page, totalPage)
  {
    var r := RenderPageNumbers(Int(page), totalPage);
    var ns := ShownPages(page, totalPage);
    RenderMatchesReference(page, totalPage);
    InterleaveNumbers(ns);
    forall i
      ensures Num(i) in r <==> i in ns
    {
      NumInNumbers(r, i);
    }
  }

  /**
   * The bar offers exactly page 1, the last page and the window, and so it
   * offers the current page whenever that is in range.
   */
  lemma PageNumbersTargets(page: int, totalPage: int)
    ensures forall i :: Num(i) in RenderPageNumbers(Int(page), totalPage) <==>
              1 <= i <= totalPage &&
              (i == 1 || i == totalPage ||
               PageWindow(page, totalPage).start <= i <= PageWindow(page, totalPage).end)
    ensures 1 <= page <= totalPage ==> Num(page) in RenderPageNumbers(Int(page), totalPage)
  {
    RenderedNumbersAreShownPages(page, totalPage);
    ShownPagesMembers(page, totalPage);
  }

  /** Every button the bar offers is a page `handlePage` accepts, so clicking it lands there. */
  lemma BarButtonAccepted(page: JsNumber, totalPage: int, i: int)
    requires Num(i) in RenderPageNumbers(page, totalPage)
    ensures 1 <= i <= totalPage
    ensures HandlePage(page, totalPage, Int(i)) == Int(i)
  {
    RenderedNumbersAreShownPages(page.value, totalPage);
    ShownPagesMembers(page.value, totalPage);
  }
}
