/**
 * `build_burst_id`: the geography-based name of a burst,
 *
 *   R<orbit, 3 digits>-<N|S><round(|lat| * 10), 3 digits>-<E|W><round(|lon| * 10), 4 digits>
 *
 * with 'N' for a latitude >= 0 and 'E' for a longitude >= 0. An identifier
 * names a cell of about 0.1 degree; `ParseBurstId` reads the cell back, so two
 * bursts get the same identifier exactly when they fall in the same cell.
 */
module BurstId {
  import opened Wrappers
  import opened Decimal
  import opened Rounding
  import opened BurstCentre

  /** What an identifier records: the orbit, two hemispheres and the rounded magnitudes. */
  datatype BurstCell = BurstCell(orbit: nat, north: bool, latTenths: nat, east: bool, lonTenths: nat)

  /** `round(|x| * 10)`: a coordinate's magnitude in tenths of a degree. */
  function Tenths(x: real): (t: nat)
    ensures t as real - 0.5 <= Abs(x) * 10.0 <= t as real + 0.5
  {
    RoundHalfEven(Abs(x) * 10.0)
  }

  function CellOf(orbit: nat, centre: GeoPoint): (c: BurstCell)
    ensures c.orbit == orbit
    ensures c.north <==> centre.latitude >= 0.0
    ensures c.east <==> centre.longitude >= 0.0
    ensures c.latTenths == RoundHalfEven(Abs(centre.latitude) * 10.0)
    ensures c.lonTenths == RoundHalfEven(Abs(centre.longitude) * 10.0)
  {
    BurstCell(orbit, centre.latitude >= 0.0, Tenths(centre.latitude),
              centre.longitude >= 0.0, Tenths(centre.longitude))
  }

  /** The text of a cell: three zero-padded fields behind their prefixes. */
  function Render(c: BurstCell): string {
    "R" + Pad(c.orbit, 3)
      + "-" + [if c.north then 'N' else 'S'] + Pad(c.latTenths, 3)
      + "-" + [if c.east then 'E' else 'W'] + Pad(c.lonTenths, 4)
  }

  function BuildBurstId(orbit: nat, centre: GeoPoint): (id: string)
    // the identifier reads back as the orbit and the rounded cell of the centre
    ensures ParseBurstId(id) == Some(CellOf(orbit, centre))
    ensures |id| >= 15 && id[0] == 'R'
    // and its three fields are the zero-padded numbers, 3, 3 and 4 digits at least
    ensures var c := CellOf(orbit, centre);
      var a, b := |Pad(c.orbit, 3)|, |Pad(c.latTenths, 3)|;
      |id| == 5 + a + b + |Pad(c.lonTenths, 4)|
      && id[1 + a] == '-' && id[3 + a + b] == '-'
      && id[1..1 + a] == Pad(c.orbit, 3)
      && id[3 + a..3 + a + b] == Pad(c.latTenths, 3)
      && id[5 + a + b..] == Pad(c.lonTenths, 4)
  {
    var cell := CellOf(orbit, centre);
    ParseRender(cell);
    RenderLayout(cell);
    Render(cell)
  }

  /** Where the fields of a rendered cell sit. */
  lemma RenderLayout(c: BurstCell)
    ensures var a, b := |Pad(c.orbit, 3)|, |Pad(c.latTenths, 3)|;
      var id := Render(c);
      |id| == 5 + a + b + |Pad(c.lonTenths, 4)|
      && id[0] == 'R' && id[1 + a] == '-' && id[3 + a + b] == '-'
      && id[2 + a] == (if c.north then 'N' else 'S')
      && id[4 + a + b] == (if c.east then 'E' else 'W')
      && id[1..1 + a] == Pad(c.orbit, 3)
      && id[3 + a..3 + a + b] == Pad(c.latTenths, 3)
      && id[5 + a + b..] == Pad(c.lonTenths, 4)
  {
    var o, la, lo := Pad(c.orbit, 3), Pad(c.latTenths, 3), Pad(c.lonTenths, 4);
    var ns, ew := if c.north then 'N' else 'S', if c.east then 'E' else 'W';
    FieldsAt("R" + o + "-" + [ns], la, "-" + [ew] + lo);
    FieldsAt("R", o, "-" + [ns] + la + "-" + [ew] + lo);
    FieldsAt("R" + o + "-" + [ns] + la + "-" + [ew], lo, []);
    assert Render(c) == "R" + o + "-" + [ns] + la + "-" + [ew] + lo;
  }

  /** The middle of a three-part text sits between the other two. */
  lemma FieldsAt(x: string, y: string, z: string)
    ensures |x + y + z| == |x| + |y| + |z|
    ensures (x + y + z)[|x|..|x| + |y|] == y
    ensures forall i :: 0 <= i < |z| ==> (x + y + z)[|x| + |y| + i] == z[i]
    ensures forall i :: 0 <= i < |x| ==> (x + y + z)[i] == x[i]
  {
    assert (x + y + z)[|x|..|x| + |y|] == (x + y + z)[..|x| + |y|][|x|..];
  }

  /** The text before the first '-' and the text after it. */
  function SplitAtDash(s: string): (r: Option<(string, string)>)
    ensures r.Some? ==> '-' !in r.value.0 && s == r.value.0 + "-" + r.value.1
  {
    if s == [] then None
    else if s[0] == '-' then Some(([], s[1..]))
    else match SplitAtDash(s[1..])
      case None => None
      case Some(parts) => Some(([s[0]] + parts.0, parts.1))
  }

  /** Reads an identifier back into its cell; `None` for text of another shape. */
  function ParseBurstId(s: string): Option<BurstCell> {
    if |s| == 0 || s[0] != 'R' then None
    else match SplitAtDash(s[1..])
      case None => None
      case Some(first) =>
        var rest := first.1;
        if |rest| == 0 || (rest[0] != 'N' && rest[0] != 'S') then None
        else match SplitAtDash(rest[1..])
          case None => None
          case Some(second) =>
            var last := second.1;
            if |last| == 0 || (last[0] != 'E' && last[0] != 'W') then None
            else match (ParseNat(first.0), ParseNat(second.0), ParseNat(last[1..]))
              case (Some(orbit), Some(lat), Some(lon)) =>
                Some(BurstCell(orbit, rest[0] == 'N', lat, last[0] == 'E', lon))
              case _ => None
  }

  lemma {:induction false} SplitAtFirstDash(d: string, rest: string)
    requires '-' !in d
    ensures SplitAtDash(d + "-" + rest) == Some((d, rest))
  {
    var s := d + "-" + rest;
    if d != [] {
      assert s[0] == d[0] && d[0] != '-';
      assert s[1..] == d[1..] + "-" + rest;
      SplitAtFirstDash(d[1..], rest);
      assert [d[0]] + d[1..] == d;
    } else {
      assert s[1..] == rest;
    }
  }

  lemma DigitsHaveNoDash(s: string)
    requires AllDigits(s)
    ensures '-' !in s
  {
  }

  /** The parser takes the three fields apart at the two dashes. */
  lemma ParseFields(o: string, ns: char, la: string, ew: char, lo: string)
    requires |o| >= 1 && |la| >= 1 && |lo| >= 1
    requires AllDigits(o) && AllDigits(la) && AllDigits(lo)
    requires ns == 'N' || ns == 'S'
    requires ew == 'E' || ew == 'W'
    ensures ParseBurstId("R" + (o + "-" + ([ns] + (la + "-" + ([ew] + lo)))))
         == Some(BurstCell(Value(o), ns == 'N', Value(la), ew == 'E', Value(lo)))
  {
    var last := [ew] + lo;
    var rest := [ns] + (la + "-" + last);
    var s := "R" + (o + "-" + rest);
    assert s[0] == 'R';
    assert s[1..] == o + "-" + rest;
    DigitsHaveNoDash(o);
    DigitsHaveNoDash(la);
    SplitAtFirstDash(o, rest);
    assert rest[0] == ns;
    assert rest[1..] == la + "-" + last;
    SplitAtFirstDash(la, last);
    assert last[0] == ew;
    assert last[1..] == lo;
    assert ParseNat(o) == Some(Value(o));
    assert ParseNat(la) == Some(Value(la));
    assert ParseNat(lo) == Some(Value(lo));
  }

  /** Rendering loses nothing: the text reads back as the same cell. */
  lemma ParseRender(c: BurstCell)
    ensures ParseBurstId(Render(c)) == Some(c)
    ensures |Render(c)| >= 15 && Render(c)[0] == 'R'
  {
    var o, la, lo := Pad(c.orbit, 3), Pad(c.latTenths, 3), Pad(c.lonTenths, 4);
    var ns, ew := if c.north then 'N' else 'S', if c.east then 'E' else 'W';
    assert Render(c) == "R" + (o + "-" + ([ns] + (la + "-" + ([ew] + lo))));
    PadValue(c.orbit, 3);
    PadValue(c.latTenths, 3);
    PadValue(c.lonTenths, 4);
    ParseFields(o, ns, la, ew, lo);
  }

  /**
   * Identifiers collide exactly when the orbits, the hemispheres and the
   * rounded magnitudes all agree.
   */
  lemma SameIdSameCell(orbit1: nat, centre1: GeoPoint, orbit2: nat, centre2: GeoPoint)
    ensures BuildBurstId(orbit1, centre1) == BuildBurstId(orbit2, centre2)
        <==> CellOf(orbit1, centre1) == CellOf(orbit2, centre2)
  {
    if BuildBurstId(orbit1, centre1) == BuildBurstId(orbit2, centre2) {
      assert Some(CellOf(orbit1, centre1)) == Some(CellOf(orbit2, centre2));
    }
  }

  /**
   * For a valid position and an orbit of at most three digits the identifier
   * has its fixed width of 15 characters.
   */
  lemma BurstIdFixedWidth(orbit: nat, centre: GeoPoint)
    requires orbit < 1000
    requires -90.0 <= centre.latitude <= 90.0 && -180.0 <= centre.longitude <= 180.0
    ensures |BuildBurstId(orbit, centre)| == 15
    // the fields sit at fixed places: orbit 1..4, latitude 6..9, longitude 11..15
    ensures var id, c := BuildBurstId(orbit, centre), CellOf(orbit, centre);
      id[4] == '-' && id[9] == '-'
      && id[1..4] == Pad(c.orbit, 3) && id[6..9] == Pad(c.latTenths, 3) && id[11..15] == Pad(c.lonTenths, 4)
  {
    var c := CellOf(orbit, centre);
    RoundAtMost(Abs(centre.latitude) * 10.0, 900);
    RoundAtMost(Abs(centre.longitude) * 10.0, 1800);
    assert Pow10(3) == 1000 && Pow10(4) == 10000;
    PadFixedWidth(c.orbit, 3);
    PadFixedWidth(c.latTenths, 3);
    PadFixedWidth(c.lonTenths, 4);
  }

  lemma PadExample3(n: nat, a: nat, b: nat, c: nat)
    requires 100 <= n < 1000 && n == 100 * a + 10 * b + c && a < 10 && b < 10 && c < 10
    ensures Digits(n) == [DigitChar(a), DigitChar(b), DigitChar(c)]
    ensures Pad(n, 3) == Digits(n)
    ensures Pad(n, 4) == ['0'] + Digits(n)
  {
    assert n / 10 == 10 * a + b && n % 10 == c;
    assert (n / 10) / 10 == a && (n / 10) % 10 == b;
    assert Digits(a) == [DigitChar(a)];
    assert Digits(n / 10) == [DigitChar(a)] + [DigitChar(b)];
    assert Digits(n) == [DigitChar(a)] + [DigitChar(b)] + [DigitChar(c)];
  }

  /** Each field of the examples' identifiers, rendered. */
  lemma FieldExamples()
    ensures Pad(168, 3) == "168"
    ensures Pad(118, 3) == "118" && Pad(471, 3) == "471"
    ensures Pad(118, 4) == "0118" && Pad(472, 4) == "0472"
  {
    PadExample3(168, 1, 6, 8);
    PadExample3(118, 1, 1, 8);
    PadExample3(471, 4, 7, 1);
    PadExample3(472, 4, 7, 2);
  }

  /** The text of a cell whose fields are already rendered. */
  lemma RenderOf(c: BurstCell, o: string, la: string, lo: string)
    requires Pad(c.orbit, 3) == o && Pad(c.latTenths, 3) == la && Pad(c.lonTenths, 4) == lo
    ensures Render(c) == "R" + o + "-" + [if c.north then 'N' else 'S'] + la + "-" + [if c.east then 'E' else 'W'] + lo
  {
  }

  /** The first example: orbit 168, centre (11.8475875, 47.16626783). */
  lemma BuildBurstIdExample()
    ensures BuildBurstId(168, GeoPoint(11.8475875, 47.16626783)) == "R168-N118-E0472"
  {
    var centre := GeoPoint(11.8475875, 47.16626783);
    RoundNearest(Abs(centre.latitude) * 10.0, 118);
    RoundNearest(Abs(centre.longitude) * 10.0, 472);
    var cell := CellOf(168, centre);
    assert cell == BurstCell(168, true, 118, true, 472);
    FieldExamples();
    RenderOf(cell, "168", "118", "0472");
    assert Render(cell) == "R168-N118-E0472";
    assert BuildBurstId(168, centre) == Render(cell);
  }

  /** The first burst of the swath: centre (47.0869..., 11.8069...); the latitude rounds up, the longitude down. */
  lemma BuildBurstIdRoundsToNearest()
    ensures BuildBurstId(168, GeoPoint(47.086949354032605, 11.806954918616803)) == "R168-N471-E0118"
  {
    var centre := GeoPoint(47.086949354032605, 11.806954918616803);
    RoundNearest(Abs(centre.latitude) * 10.0, 471);
    RoundNearest(Abs(centre.longitude) * 10.0, 118);
    var cell := CellOf(168, centre);
    assert cell == BurstCell(168, true, 471, true, 118);
    FieldExamples();
    RenderOf(cell, "168", "471", "0118");
    assert Render(cell) == "R168-N471-E0118";
    assert BuildBurstId(168, centre) == Render(cell);
  }

  /** South and west: negative coordinates take the 'S' and 'W' prefixes and keep their magnitudes. */
  lemma BuildBurstIdSouthWest()
    ensures BuildBurstId(168, GeoPoint(-11.8475875, -47.16626783)) == "R168-S118-W0472"
  {
    var centre := GeoPoint(-11.8475875, -47.16626783);
    RoundNearest(Abs(centre.latitude) * 10.0, 118);
    RoundNearest(Abs(centre.longitude) * 10.0, 472);
    var cell := CellOf(168, centre);
    assert cell == BurstCell(168, false, 118, false, 472);
    FieldExamples();
    RenderOf(cell, "168", "118", "0472");
    assert Render(cell) == "R168-S118-W0472";
    assert BuildBurstId(168, centre) == Render(cell);
  }
}
