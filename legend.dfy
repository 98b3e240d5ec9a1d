/**
 * The fixed colour legend of the coverage map (`RGB_TO_DBM`) and the
 * nearest-colour classifier (`get_closest_rgb`).
 */
module Legend {
  import opened Wrappers

  /** Weakest and strongest signal levels the legend expresses, in dBm. */
  const MIN_COVERAGE: int := -108
  const MAX_COVERAGE: int := -80

  /** An RGB triple as read from the raster's three bands. */
  datatype Color = Color(r: int, g: int, b: int)

  /** The background colour: no coverage, never a legend key. */
  const White: Color := Color(255, 255, 255)

  /** One legend entry: a colour and the signal level it stands for. */
  datatype Entry = Entry(color: Color, dbm: int)

  /** The legend, in the insertion order of the source's dictionary. */
  const RgbToDbm: seq<Entry> := [
    Entry(Color(207, 99, 103), -80),
    Entry(Color(234, 104, 102), -90),
    Entry(Color(243, 172, 103), -100),
    Entry(Color(248, 209, 191), -108)
  ]

  /** Squared Euclidean distance between two colours. */
  function SqDist(x: Color, y: Color): (d: int)
    ensures d >= 0
    ensures d == 0 <==> x == y
  {
    var dr, dg, db := x.r - y.r, x.g - y.g, x.b - y.b;
    SquaresVanish(dr, dg, db);
    dr * dr + dg * dg + db * db
  }

  lemma SquaresVanish(a: int, b: int, c: int)
    ensures a * a >= 0 && b * b >= 0 && c * c >= 0
    ensures a * a + b * b + c * c == 0 <==> a == 0 && b == 0 && c == 0
  {
    if a != 0 { assert a * a > 0 by { SquarePositive(a); } }
    if b != 0 { assert b * b > 0 by { SquarePositive(b); } }
    if c != 0 { assert c * c > 0 by { SquarePositive(c); } }
  }

  lemma SquarePositive(a: int)
    requires a != 0
    ensures a * a > 0
  {
    if a > 0 { assert a * a >= a; } else { assert a * a == (-a) * (-a) >= -a; }
  }

  /** The dictionary lookup `RGB_TO_DBM.get(c)`: the level of the first entry whose colour is `c`. */
  function LevelOf(c: Color): (r: Option<int>)
    ensures r.None? <==> forall i :: 0 <= i < |RgbToDbm| ==> RgbToDbm[i].color != c
    ensures r.Some? ==> exists i :: 0 <= i < |RgbToDbm| && RgbToDbm[i] == Entry(c, r.value)
  {
    LookupFrom(c, 0)
  }

  function LookupFrom(c: Color, i: nat): (r: Option<int>)
    requires i <= |RgbToDbm|
    ensures r.None? <==> forall j :: i <= j < |RgbToDbm| ==> RgbToDbm[j].color != c
    ensures r.Some? ==> exists j :: i <= j < |RgbToDbm| && RgbToDbm[j] == Entry(c, r.value)
    decreases |RgbToDbm| - i
  {
    if i == |RgbToDbm| then None
    else if RgbToDbm[i].color == c then Some(RgbToDbm[i].dbm)
    else LookupFrom(c, i + 1)
  }

  /** The legend's keys are pairwise distinct, white is none of them,
      and every level lies in [MIN_COVERAGE, MAX_COVERAGE]. */
  lemma LegendWellFormed()
    ensures forall i, j :: 0 <= i < j < |RgbToDbm| ==> RgbToDbm[i].color != RgbToDbm[j].color
    ensures forall i :: 0 <= i < |RgbToDbm| ==> RgbToDbm[i].color != White
    ensures forall i :: 0 <= i < |RgbToDbm| ==> MIN_COVERAGE <= RgbToDbm[i].dbm <= MAX_COVERAGE
  {
  }

  /** Looking up a legend colour gives that entry's own level. */
  lemma LevelOfEntry(k: nat)
    requires k < |RgbToDbm|
    ensures LevelOf(RgbToDbm[k].color) == Some(RgbToDbm[k].dbm)
  {
    LegendWellFormed();
  }

  /** `k` is the first legend index at minimal squared distance from `p`. */
  ghost predicate FirstNearest(p: Color, k: int)
  {
    && 0 <= k < |RgbToDbm|
    && (forall j :: 0 <= j < |RgbToDbm| ==> SqDist(RgbToDbm[k].color, p) <= SqDist(RgbToDbm[j].color, p))
    && (forall j :: 0 <= j < k ==> SqDist(RgbToDbm[j].color, p) > SqDist(RgbToDbm[k].color, p))
  }

  /** Python's `min(keys, key=...)` over the first `n` keys: a later key
      replaces the running minimum only when strictly closer. */
  function NearestAmong(p: Color, n: nat): (k: nat)
    requires 1 <= n <= |RgbToDbm|
    ensures k < n
    ensures forall j :: 0 <= j < n ==> SqDist(RgbToDbm[k].color, p) <= SqDist(RgbToDbm[j].color, p)
    ensures forall j :: 0 <= j < k ==> SqDist(RgbToDbm[j].color, p) > SqDist(RgbToDbm[k].color, p)
  {
    if n == 1 then 0
    else
      var k := NearestAmong(p, n - 1);
      if SqDist(RgbToDbm[n - 1].color, p) < SqDist(RgbToDbm[k].color, p) then n - 1 else k
  }

  /** `get_closest_rgb`: no colour for white, otherwise the nearest legend
      colour, the earliest in table order among equally near ones. */
  function ClosestRgb(p: Color): (r: Option<Color>)
    ensures r.None? <==> p == White
    ensures r.Some? ==> LevelOf(r.value).Some?
    ensures r.Some? ==> exists k :: FirstNearest(p, k) && RgbToDbm[k].color == r.value
  {
    if p == White then None
    else
      var k := NearestAmong(p, |RgbToDbm|);
      assert FirstNearest(p, k);
      Some(RgbToDbm[k].color)
  }

  /** At most one index is the first nearest one, so the contract of
      `ClosestRgb` pins its result down. */
  lemma FirstNearestUnique(p: Color, k1: int, k2: int)
    requires FirstNearest(p, k1) && FirstNearest(p, k2)
    ensures k1 == k2
  {
    var d1, d2 := SqDist(RgbToDbm[k1].color, p), SqDist(RgbToDbm[k2].color, p);
    assert d1 <= d2 && d2 <= d1;
    assert k2 < k1 ==> d2 > d1;
    assert k1 < k2 ==> d1 > d2;
  }

  /** A pixel painted exactly in a legend colour is classified as that colour. */
  lemma ExactLegendColor(i: nat)
    requires i < |RgbToDbm|
    ensures ClosestRgb(RgbToDbm[i].color) == Some(RgbToDbm[i].color)
  {
    var c := RgbToDbm[i].color;
    LegendWellFormed();
    var k := NearestAmong(c, |RgbToDbm|);
    assert SqDist(RgbToDbm[k].color, c) <= SqDist(c, c) == 0;
  }

  /** The levels of the legend, in table order (`RGB_TO_DBM.values()`). */
  function Levels(): (s: seq<int>)
    ensures s == [-80, -90, -100, -108]
  {
    var s := seq(|RgbToDbm|, i requires 0 <= i < |RgbToDbm| => RgbToDbm[i].dbm);
    assert s[0] == -80 && s[1] == -90 && s[2] == -100 && s[3] == -108;
    s
  }

  /** `sorted(RGB_TO_DBM.values())`: the legend levels in ascending order. */
  function SortedLevels(): (s: seq<int>)
    ensures multiset(s) == multiset(Levels())
    ensures forall i, j :: 0 <= i < j < |s| ==> s[i] <= s[j]
  {
    ReversedLevelsPermutation();
    [-108, -100, -90, -80]
  }

  lemma ReversedLevelsPermutation()
    ensures multiset([-108, -100, -90, -80]) == multiset([-80, -90, -100, -108])
  {
    assert multiset([-80, -90, -100, -108]) == multiset{-108, -100, -90, -80};
    assert multiset([-108, -100, -90, -80]) == multiset{-108, -100, -90, -80};
  }
}
