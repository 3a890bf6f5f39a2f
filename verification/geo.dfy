/** Coordinates, the abstract great-circle distance and the ordered region
    table (transport_api.py:99-125). Floating-point degrees are modelled as
    reals; the haversine formula is not modelled, every distance comes from a
    caller-supplied function `dist` in kilometres. */
module Geo {
  import opened Seqs
  import opened Text

  datatype Coord = Coord(lat: real, lon: real)

  /** Great-circle distance in km, left abstract. */
  type DistFn = (Coord, Coord) -> real

  /** A latitude/longitude box with its region label. */
  datatype Box = Box(latMin: real, latMax: real, lonMin: real, lonMax: real, name: string)

  /** The region table, searched first match first; narrow boxes come
      before the wide ones that overlap them. */
  const RegionTable: seq<Box> := [
    Box(33.45, 33.75, 130.2, 130.6, "福岡"),
    Box(34.6, 34.8, 135.3, 135.6, "大阪"),
    Box(34.9, 35.1, 136.8, 137.0, "名古屋"),
    Box(35.6, 35.82, 139.5, 140.0, "東京"),
    Box(35.35, 35.6, 139.3, 139.8, "神奈川"),
    Box(35.8, 36.1, 139.5, 140.2, "埼玉"),
    Box(35.5, 35.9, 139.9, 140.3, "千葉"),
    Box(35.0, 35.6, 138.5, 139.3, "山梨"),
    Box(42.5, 46.0, 139.0, 146.0, "北海道"),
    Box(38.5, 42.5, 139.0, 141.5, "東北"),
    Box(36.0, 37.5, 139.0, 140.5, "北関東"),
    Box(35.0, 36.5, 136.5, 138.5, "中部"),
    Box(34.5, 35.5, 134.5, 136.5, "関西"),
    Box(33.5, 35.0, 130.5, 135.0, "中国"),
    Box(33.0, 34.5, 132.0, 134.5, "四国"),
    Box(31.0, 34.0, 129.5, 132.0, "九州")
  ]

  /** Bounds are inclusive on all four sides. */
  predicate InBox(c: Coord, b: Box) {
    b.latMin <= c.lat <= b.latMax && b.lonMin <= c.lon <= b.lonMax
  }

  /** Entry k is the first table entry containing c. */
  predicate FirstBox(c: Coord, k: int) {
    0 <= k < |RegionTable| && InBox(c, RegionTable[k])
    && forall j :: 0 <= j < k ==> !InBox(c, RegionTable[j])
  }

  function RegionFrom(c: Coord, i: nat): (r: string)
    requires i <= |RegionTable|
    ensures r == "" <==> forall k :: i <= k < |RegionTable| ==> !InBox(c, RegionTable[k])
    ensures r != "" ==> exists k :: (i <= k < |RegionTable| && InBox(c, RegionTable[k])
      && (forall j :: i <= j < k ==> !InBox(c, RegionTable[j])) && r == RegionTable[k].name)
    decreases |RegionTable| - i
  {
    LabelsNonEmpty();
    if i == |RegionTable| then ""
    else if InBox(c, RegionTable[i]) then RegionTable[i].name
    else RegionFrom(c, i + 1)
  }

  /** `_get_region`: the label of the first box containing the point, or ""
      for a missing coordinate or a point in no box. */
  function RegionOf(c: Option<Coord>): (r: string)
    ensures r == "" <==> c.None? || forall k :: 0 <= k < |RegionTable| ==> !InBox(c.value, RegionTable[k])
    ensures r != "" ==> exists k :: FirstBox(c.value, k) && r == RegionTable[k].name
    ensures NoDigits(r)
  {
    LabelsNoDigits();
    match c
    case None => ""
    case Some(p) => RegionFrom(p, 0)
  }

  lemma LabelsNonEmpty()
    ensures forall k :: 0 <= k < |RegionTable| ==> RegionTable[k].name != ""
  {
  }

  /** No region label contains an ASCII digit, so a label followed by a
      running number can be split back apart. */
  lemma LabelsNoDigits()
    ensures forall k :: 0 <= k < |RegionTable| ==> NoDigits(RegionTable[k].name)
  {
    forall k | 0 <= k < |RegionTable|
      ensures NoDigits(RegionTable[k].name)
    {
      var l := RegionTable[k].name;
      assert forall i :: 0 <= i < |l| ==> l[i] >= '\U{4E00}';
    }
  }

  /** Overlaps are decided by table order: (35.6, 139.6) lies in both the
      Tokyo and the Kanagawa box and is labelled Tokyo. */
  lemma {:induction false} FirstMatchWins()
    ensures InBox(Coord(35.6, 139.6), RegionTable[4])
    ensures RegionOf(Some(Coord(35.6, 139.6))) == "東京"
  {
    var c := Coord(35.6, 139.6);
    assert !InBox(c, RegionTable[0]) && !InBox(c, RegionTable[1]) && !InBox(c, RegionTable[2]);
    assert InBox(c, RegionTable[3]);
    assert RegionFrom(c, 3) == "東京";
    assert RegionFrom(c, 2) == RegionFrom(c, 3);
    assert RegionFrom(c, 1) == RegionFrom(c, 2);
    assert RegionFrom(c, 0) == RegionFrom(c, 1);
  }
}
