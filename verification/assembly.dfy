/**
 The page loop of a run: every source page is normalised, split at its
 midpoint, and emitted as a left view followed by a right view, with one
 progress report per source page.
 */
module Assembly {
  import opened Optional
  import opened Geometry
  import opened Progress

  /**
   A page of the input document: its content (an opaque identity standing for
   the page's content stream, which normalisation rewrites and may fail on),
   its rotation attribute and its MediaBox.
   */
  datatype SourcePage = SourcePage(content: nat, rotation: int, mediabox: Rect)

  /**
   A page of the output document: a view of source page `source` (its content
   is shared, not copied) with its own MediaBox.
   */
  datatype OutputPage = OutputPage(source: nat, mediabox: Rect)

  /** Why a run stopped before writing anything. */
  datatype RunError = RotationFailed(page: nat)

  /**
   The end of a run. Reports already issued stay issued; an aborted run
   produces no output document.
   */
  datatype RunResult =
    | Completed(doc: seq<OutputPage>, reports: seq<Report>)
    | Aborted(error: RunError, reports: seq<Report>)

  /**
   The output for source MediaBoxes `boxes` (as read after normalisation):
   for each source page in order, its left view and then its right view.
   */
  predicate Interleaved(doc: seq<OutputPage>, boxes: seq<Rect>) {
    && |doc| == 2 * |boxes|
    && forall k :: 0 <= k < |boxes| ==>
         && doc[2 * k] == OutputPage(k, Split(boxes[k]).left)
         && doc[2 * k + 1] == OutputPage(k, Split(boxes[k]).right)
  }

  /** The MediaBoxes of the pages after normalisation, when it succeeded on every page. */
  function NormalizedBoxes(pages: seq<SourcePage>, normalize: SourcePage -> Option<SourcePage>): (boxes: seq<Rect>)
    requires forall k :: 0 <= k < |pages| ==> normalize(pages[k]).Some?
    ensures |boxes| == |pages|
    ensures forall k :: 0 <= k < |pages| ==> boxes[k] == normalize(pages[k]).value.mediabox
  {
    seq(|pages|, k requires 0 <= k < |pages| => normalize(pages[k]).value.mediabox)
  }

  /** Output page `n` is the left (even `n`) or right (odd `n`) view of source page `n / 2`. */
  predicate IsViewOf(out: OutputPage, n: nat, box: Rect) {
    && out.source == n / 2
    && out.mediabox == (if n % 2 == 0 then Split(box).left else Split(box).right)
  }

  /**
   Runs the page loop. `normalize` is the library's rotation normalisation:
   it returns the page with its rotation baked into the content (and its
   MediaBox as then read), or None when it fails, which aborts the run.
   Whether it fails may depend on the page's content, not only on its size
   and rotation.
   */
  method RunLogic(pages: seq<SourcePage>, normalize: SourcePage -> Option<SourcePage>)
    returns (r: RunResult)
    ensures r.Completed? <==> forall k :: 0 <= k < |pages| ==> normalize(pages[k]).Some?
    ensures r.Completed? ==>
      && Interleaved(r.doc, NormalizedBoxes(pages, normalize))
      && |r.reports| == |pages|
    ensures r.Aborted? ==>
      var failed := r.error.page;
      && failed < |pages|
      && normalize(pages[failed]).None?
      && (forall k :: 0 <= k < failed ==> normalize(pages[k]).Some?)
      && |r.reports| == failed
    ensures forall k :: 0 <= k < |r.reports| ==> r.reports[k] == ProgressReport(k, |pages|)
  {
    var total := |pages|;
    var doc: seq<OutputPage> := [];
    var reports: seq<Report> := [];
    var i := 0;
    while i < total
      invariant 0 <= i <= total
      invariant forall k :: 0 <= k < i ==> normalize(pages[k]).Some?
      invariant |doc| == 2 * i
      invariant forall k :: 0 <= k < i ==>
        && doc[2 * k] == OutputPage(k, Split(normalize(pages[k]).value.mediabox).left)
        && doc[2 * k + 1] == OutputPage(k, Split(normalize(pages[k]).value.mediabox).right)
      invariant |reports| == i
      invariant forall k :: 0 <= k < i ==> reports[k] == ProgressReport(k, total)
    {
      var normalized := normalize(pages[i]);
      if normalized.None? {
        return Aborted(RotationFailed(i), reports);
      }
      var mb := normalized.value.mediabox;
      var halves := Split(mb);
      doc := doc + [OutputPage(i, halves.left)];
      doc := doc + [OutputPage(i, halves.right)];
      reports := reports + [ProgressReport(i, total)];
      i := i + 1;
    }
    return Completed(doc, reports);
  }

  /**
   Every output page is a view of the right source page, and source order is
   preserved: a later output page never comes from an earlier source page.
   */
  lemma InterleavedOrder(doc: seq<OutputPage>, boxes: seq<Rect>)
    requires Interleaved(doc, boxes)
    ensures forall n :: 0 <= n < |doc| ==> n / 2 < |boxes| && IsViewOf(doc[n], n, boxes[n / 2])
    ensures forall m, n :: 0 <= m <= n < |doc| ==> doc[m].source <= doc[n].source
  {
    forall n | 0 <= n < |doc|
      ensures n / 2 < |boxes| && IsViewOf(doc[n], n, boxes[n / 2])
    {
      var k := n / 2;
      if n % 2 == 0 {
        assert n == 2 * k;
      } else {
        assert n == 2 * k + 1;
      }
    }
    forall m, n | 0 <= m <= n < |doc|
      ensures doc[m].source <= doc[n].source
    {
      assert doc[m].source == m / 2 && doc[n].source == n / 2;
    }
  }

  /** Gluing each left/right pair back together gives the source page's MediaBox. */
  lemma InterleavedRejoins(doc: seq<OutputPage>, boxes: seq<Rect>)
    requires Interleaved(doc, boxes)
    ensures forall k :: 0 <= k < |boxes| ==>
      Join(SplitResult(doc[2 * k].mediabox, doc[2 * k + 1].mediabox)) == boxes[k]
  {
    forall k | 0 <= k < |boxes|
      ensures Join(SplitResult(doc[2 * k].mediabox, doc[2 * k + 1].mediabox)) == boxes[k]
    {
      JoinSplit(boxes[k]);
    }
  }

  /**
   The reports of a run of `total` pages: progress stays within 0..100,
   never decreases, reaches 100 on the last page, and the status lines count
   the pages from 1 to `total`, so no two of them are alike.
   */
  lemma ReportsProgress(reports: seq<Report>, total: nat)
    requires |reports| == total
    requires forall k :: 0 <= k < total ==> reports[k] == ProgressReport(k, total)
    ensures forall k :: 0 <= k < total ==> 0 <= reports[k].percent <= 100
    ensures forall m, n :: 0 <= m <= n < total ==> reports[m].percent <= reports[n].percent
    ensures total > 0 ==> reports[total - 1].percent == 100
    ensures forall m, n :: 0 <= m < n < total ==> reports[m].status != reports[n].status
    ensures forall k :: 0 <= k < total ==> ParseStatus(reports[k].status) == Some((k + 1, total))
  {
    forall k | 0 <= k < total
      ensures ParseStatus(reports[k].status) == Some((k + 1, total))
    {
      StatusRoundTrip(k, total);
    }
    forall m, n | 0 <= m <= n < total
      ensures reports[m].percent <= reports[n].percent
    {
      PercentMonotone(m, n, total);
    }
  }

  /** A single 200 by 100 page becomes the pages (0,0)-(100,100) and (100,0)-(200,100). */
  lemma OnePageScenario(doc: seq<OutputPage>)
    requires Interleaved(doc, [Rect(Point(0.0, 0.0), Point(200.0, 100.0))])
    ensures doc == [OutputPage(0, Rect(Point(0.0, 0.0), Point(100.0, 100.0))),
                    OutputPage(0, Rect(Point(100.0, 0.0), Point(200.0, 100.0)))]
  {
    var boxes := [Rect(Point(0.0, 0.0), Point(200.0, 100.0))];
    var k := 0;
    assert doc[2 * k] == OutputPage(k, Split(boxes[k]).left);
    assert doc[2 * k + 1] == OutputPage(k, Split(boxes[k]).right);
  }

  /** A two-page run reports "1 / 2" at 50 and then "2 / 2" at 100. */
  lemma TwoPageReports()
    ensures ProgressReport(0, 2) == Report(50, "Processing: 1 / 2 pages")
    ensures ProgressReport(1, 2) == Report(100, "Processing: 2 / 2 pages")
  {
    PercentIsQuotient(0, 2);
  }

  /**
   Three pages of the same size and rotation, the second with content the
   library cannot rewrite: the run stops at that page after reporting the
   first one, and writes nothing.
   */
  method CorruptSecondPage() returns (r: RunResult)
    ensures r == Aborted(RotationFailed(1), [Report(33, "Processing: 1 / 3 pages")])
  {
    var box := Rect(Point(0.0, 0.0), Point(612.0, 792.0));
    var pages := [SourcePage(0, 0, box), SourcePage(1, 0, box), SourcePage(2, 0, box)];
    var normalize := (p: SourcePage) => if p.content == 1 then None else Some(p);
    r := RunLogic(pages, normalize);
    assert normalize(pages[1]).None?;
    PercentIsQuotient(0, 3);
    assert ProgressReport(0, 3) == Report(33, "Processing: 1 / 3 pages");
    assert r.reports == [ProgressReport(0, 3)];
  }
}
