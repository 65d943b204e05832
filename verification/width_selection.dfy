/** The width fold of `getImageMetaByWidth`
    (addon/services/responsive-image-local.ts:100-109): `widths.reduce(step, 0)`. */
module WidthSelection {

  /** One step of the fold: while both the candidate `w` and the accumulator
      reach the requested width keep the smaller, otherwise keep the larger. */
  function Step(acc: int, w: int, requested: int): (r: int)
    ensures r == acc || r == w
    ensures acc >= requested || w >= requested ==>
      && r >= requested
      && (acc >= requested ==> r <= acc)
      && (w >= requested ==> r <= w)
    ensures acc < requested && w < requested ==> r >= acc && r >= w
  {
    if w >= requested && acc >= requested then
      (if w >= acc then acc else w)
    else
      (if w >= acc then w else acc)
  }

  /** `r` is the least member of `cs` that is at least `bound`. */
  ghost predicate IsLeastAtLeast(r: int, cs: seq<int>, bound: int) {
    && r in cs
    && r >= bound
    && forall c :: c in cs && c >= bound ==> r <= c
  }

  /** `r` is the greatest member of `cs`. */
  ghost predicate IsGreatest(r: int, cs: seq<int>) {
    && r in cs
    && forall c :: c in cs ==> c <= r
  }

  /** The reference definition of the selection: among the candidates, which
      are the initial accumulator 0 and every listed width, take the least one
      that reaches the requested width, or the greatest one when none does. */
  ghost predicate Selects(widths: seq<int>, requested: int, r: int) {
    var cs := [0] + widths;
    if exists c :: c in cs && c >= requested then IsLeastAtLeast(r, cs, requested)
    else IsGreatest(r, cs)
  }

  /** The fold `widths.reduce(Step, 0)`, written over the prefix so that its
      last step is the outermost call. */
  function SelectWidth(widths: seq<int>, requested: int): (r: int)
    ensures Selects(widths, requested, r)
    decreases |widths|
  {
    if |widths| == 0 then 0
    else
      var prefix := widths[..|widths| - 1];
      var w := widths[|widths| - 1];
      var acc := SelectWidth(prefix, requested);
      StepKeepsSelection(prefix, w, requested, acc);
      assert prefix + [w] == widths;
      Step(acc, w, requested)
  }

  /** One step of the fold turns the selection over a prefix into the
      selection over the prefix extended by one width. */
  lemma StepKeepsSelection(prefix: seq<int>, w: int, requested: int, acc: int)
    requires Selects(prefix, requested, acc)
    ensures Selects(prefix + [w], requested, Step(acc, w, requested))
  {
    var cs := [0] + prefix;
    var cs' := [0] + (prefix + [w]);
    assert cs' == cs + [w];
    assert forall c :: c in cs' <==> c in cs || c == w;
    if exists c :: c in cs && c >= requested {
      assert acc >= requested;
    } else {
      assert acc < requested by {
        assert acc in cs;
      }
      if w >= requested {
        assert Step(acc, w, requested) == w;
      }
    }
  }

  /** At most one value meets the reference definition. */
  lemma SelectsUnique(widths: seq<int>, requested: int, r1: int, r2: int)
    requires Selects(widths, requested, r1) && Selects(widths, requested, r2)
    ensures r1 == r2
  {
    var cs := [0] + widths;
    if exists c :: c in cs && c >= requested {
      assert r1 <= r2 && r2 <= r1;
    } else {
      assert r1 <= r2 && r2 <= r1;
    }
  }

  /** The fold depends only on which widths are listed, not on their order
      or repetition. */
  lemma SelectionIgnoresOrder(a: seq<int>, b: seq<int>, requested: int)
    requires forall w :: w in a <==> w in b
    ensures SelectWidth(a, requested) == SelectWidth(b, requested)
  {
    var ca := [0] + a;
    var cb := [0] + b;
    assert forall c :: c in ca <==> c in cb by {
      assert forall c :: c in ca <==> c == 0 || c in a;
      assert forall c :: c in cb <==> c == 0 || c in b;
    }
    var r := SelectWidth(a, requested);
    assert Selects(b, requested, r);
    SelectsUnique(b, requested, r, SelectWidth(b, requested));
  }

  /** For a positive requested width over non-negative widths, the fold picks
      the smallest width that reaches the request, or the largest width when
      none does; either way the pick is one of the listed widths. */
  lemma SelectionIsCeilingElseMax(widths: seq<int>, requested: int)
    requires requested > 0 && |widths| > 0
    requires forall w :: w in widths ==> w >= 0
    ensures SelectWidth(widths, requested) in widths
    ensures (exists w :: w in widths && w >= requested) ==>
      && SelectWidth(widths, requested) >= requested
      && forall w :: w in widths && w >= requested ==> SelectWidth(widths, requested) <= w
    ensures (forall w :: w in widths ==> w < requested) ==>
      forall w :: w in widths ==> w <= SelectWidth(widths, requested)
  {
    var r := SelectWidth(widths, requested);
    var cs := [0] + widths;
    assert forall c :: c in cs <==> c == 0 || c in widths;
    assert widths[0] in cs;
    if r == 0 {
      assert widths[0] <= r;
      assert widths[0] == 0;
    }
  }

  /** With no widths listed the fold returns its initial accumulator 0. */
  lemma EmptyWidthsSelectZero(requested: int)
    ensures SelectWidth([], requested) == 0
  {
  }

  /** A requested width of 0 or less is already met by the initial
      accumulator 0, which no non-negative width undercuts. */
  lemma NonPositiveRequestSelectsZero(widths: seq<int>, requested: int)
    requires requested <= 0
    requires forall w :: w in widths ==> w >= 0
    ensures SelectWidth(widths, requested) == 0
  {
    var cs := [0] + widths;
    assert 0 in cs;
  }

  /** Requesting a listed width selects exactly that width. */
  lemma ListedWidthSelectsItself(widths: seq<int>, w: int)
    requires w in widths
    ensures SelectWidth(widths, w) == w
  {
    var cs := [0] + widths;
    assert w in cs;
  }

  /** The worked example: widths 320, 640 and 960; a request of 500 selects
      640 and a request of 1200 falls back to 960. */
  lemma SelectionExamples()
    ensures SelectWidth([320, 640, 960], 500) == 640
    ensures SelectWidth([320, 640, 960], 1200) == 960
  {
    assert [320, 640, 960][..2] == [320, 640];
    assert [320, 640][..1] == [320];
    assert [320][..0] == [];
  }
}
