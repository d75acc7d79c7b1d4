/**
 * The Landsat Collection 2 Level-2 product file name both decoders accept
 * (the `landsat_product_id_l2` entry of the USGS Landsat Collection 2 Data
 * Dictionary), with the band file's suffix:
 *
 *   LXSS_LLLL_PPPRRR_YYYYMMDD_yyyymmdd_CC_TX_SX_BX.TIF
 *
 * Every field before the band has a fixed width, so the regular expression
 * of the source is a check of character classes at fixed positions, and a
 * file name matches exactly when it is the rendering of nine well-formed
 * fields.
 */
module ProductId {
  import opened Wrappers

  /** The nine named groups of a match. */
  datatype Details = Details(
    satellite: string,
    correctionLevel: string,
    wrs: string,
    acquisitionDate: string,
    processingDate: string,
    collectionNumber: string,
    collectionCategory: string,
    surface: string,
    band: string)

  /** The one point where the two decoders differ: the class of the surface field. */
  datatype SurfaceRule =
    | AnyUpperPair               // `[A-Z]{2}`
    | ReflectanceOrTemperature   // `ST|SR`

  predicate IsDigit(c: char) { '0' <= c <= '9' }

  predicate IsUpper(c: char) { 'A' <= c <= 'Z' }

  /** `[A-Z0-9_]` */
  predicate IsBandChar(c: char) { IsUpper(c) || IsDigit(c) || c == '_' }

  predicate AllDigits(s: string) { forall i :: 0 <= i < |s| ==> IsDigit(s[i]) }

  /** `L[COTEM][0-9]{2}` */
  predicate IsSatellite(s: string)
  {
    |s| == 4 && s[0] == 'L' && s[1] in "COTEM" && IsDigit(s[2]) && IsDigit(s[3])
  }

  /** `L2SP|L2SR` */
  predicate IsCorrectionLevel(s: string) { s == "L2SP" || s == "L2SR" }

  /** `\d{6}` */
  predicate IsWrs(s: string) { |s| == 6 && AllDigits(s) }

  /** `0[1-9]|1[0-2]` */
  predicate IsMonth(a: char, b: char)
  {
    (a == '0' && '1' <= b <= '9') || (a == '1' && '0' <= b <= '2')
  }

  /** `0[1-9]|[12][0-9]|3[01]`: no check of the month's length. */
  predicate IsDay(a: char, b: char)
  {
    || (a == '0' && '1' <= b <= '9')
    || ((a == '1' || a == '2') && IsDigit(b))
    || (a == '3' && (b == '0' || b == '1'))
  }

  /** `(?:19|20)\d{2}` then a month and a day. */
  predicate IsDate(s: string)
  {
    && |s| == 8
    && s[0] in "12" && (if s[0] == '1' then s[1] == '9' else s[1] == '0')
    && IsDigit(s[2]) && IsDigit(s[3])
    && IsMonth(s[4], s[5])
    && IsDay(s[6], s[7])
  }

  /** `[0-9]{2}` */
  predicate IsCollectionNumber(s: string) { |s| == 2 && AllDigits(s) }

  /** `RT|T1|T2` */
  predicate IsCollectionCategory(s: string) { s == "RT" || s == "T1" || s == "T2" }

  predicate IsSurface(s: string, rule: SurfaceRule)
  {
    match rule
    case AnyUpperPair => |s| == 2 && IsUpper(s[0]) && IsUpper(s[1])
    case ReflectanceOrTemperature => s == "ST" || s == "SR"
  }

  /** `[A-Z0-9_]+` */
  predicate IsBand(s: string)
  {
    |s| > 0 && forall i :: 0 <= i < |s| ==> IsBandChar(s[i])
  }

  /** Every field is in its class. */
  predicate WellFormed(d: Details, rule: SurfaceRule)
  {
    && IsSatellite(d.satellite)
    && IsCorrectionLevel(d.correctionLevel)
    && IsWrs(d.wrs)
    && IsDate(d.acquisitionDate)
    && IsDate(d.processingDate)
    && IsCollectionNumber(d.collectionNumber)
    && IsCollectionCategory(d.collectionCategory)
    && IsSurface(d.surface, rule)
    && IsBand(d.band)
  }

  /** The nine fields joined by `_`, then `.TIF`. */
  function Render(d: Details): string
  {
    d.satellite + "_" + d.correctionLevel + "_" + d.wrs + "_"
    + d.acquisitionDate + "_" + d.processingDate + "_"
    + d.collectionNumber + "_" + d.collectionCategory + "_"
    + d.surface + "_" + d.band + ".TIF"
  }

  // Offsets of the fixed-width fields; the band starts at 44.
  const BandStart: nat := 44
  /** The shortest name that can match: a one-character band. */
  const MinLength: nat := 49

  /** The fields at their fixed offsets in a name of sufficient length. */
  function Fields(name: string): Details
    requires |name| >= MinLength
  {
    Details(name[0..4], name[5..9], name[10..16], name[17..25], name[26..34],
            name[35..37], name[38..40], name[41..43], name[BandStart..|name| - 4])
  }

  /** The underscores between the fixed-width fields and the `.TIF` at the end. */
  predicate Punctuated(name: string)
    requires |name| >= MinLength
  {
    && name[4] == '_' && name[9] == '_' && name[16] == '_' && name[25] == '_'
    && name[34] == '_' && name[37] == '_' && name[40] == '_' && name[43] == '_'
    && name[|name| - 4..] == ".TIF"
  }

  /** The widths the grammar gives each field before the band. */
  predicate FixedWidths(d: Details)
  {
    && |d.satellite| == 4 && |d.correctionLevel| == 4 && |d.wrs| == 6
    && |d.acquisitionDate| == 8 && |d.processingDate| == 8
    && |d.collectionNumber| == 2 && |d.collectionCategory| == 2 && |d.surface| == 2
  }

  lemma WellFormedWidths(d: Details, rule: SurfaceRule)
    requires WellFormed(d, rule)
    ensures FixedWidths(d) && |d.band| > 0
  {
  }

  /** Rendering fields of the grammar's widths puts each at its offset. */
  lemma RenderLayout(d: Details)
    requires FixedWidths(d) && |d.band| > 0
    ensures |Render(d)| == MinLength - 1 + |d.band|
    ensures Punctuated(Render(d)) && Fields(Render(d)) == d
  {
    RenderFront(d);
    RenderBack(d);
  }

  lemma RenderFront(d: Details)
    requires FixedWidths(d) && |d.band| > 0
    ensures var r := Render(d);
      && |r| == MinLength - 1 + |d.band|
      && r[0..4] == d.satellite && r[5..9] == d.correctionLevel && r[10..16] == d.wrs
      && r[17..25] == d.acquisitionDate && r[26..34] == d.processingDate
      && r[4] == '_' && r[9] == '_' && r[16] == '_' && r[25] == '_'
  {
    var r := Render(d);
    assert r[0..4] == d.satellite;
    assert r[5..9] == d.correctionLevel;
    assert r[10..16] == d.wrs;
    assert r[17..25] == d.acquisitionDate;
    assert r[26..34] == d.processingDate;
  }

  lemma RenderBack(d: Details)
    requires FixedWidths(d) && |d.band| > 0
    ensures var r := Render(d);
      && |r| == MinLength - 1 + |d.band|
      && r[35..37] == d.collectionNumber && r[38..40] == d.collectionCategory
      && r[41..43] == d.surface && r[BandStart..|r| - 4] == d.band && r[|r| - 4..] == ".TIF"
      && r[34] == '_' && r[37] == '_' && r[40] == '_' && r[43] == '_'
  {
    var r := Render(d);
    assert r[35..37] == d.collectionNumber;
    assert r[38..40] == d.collectionCategory;
    assert r[41..43] == d.surface;
    assert r[BandStart..|r| - 4] == d.band;
    assert r[|r| - 4..] == ".TIF";
  }

  /** A punctuated name is the rendering of the fields at its offsets. */
  lemma FieldsRender(name: string)
    requires |name| >= MinLength && Punctuated(name)
    ensures Render(Fields(name)) == name
  {
    var d := Fields(name);
    var r := Render(d);
    assert |r| == |name|;
    forall i | 0 <= i < |name|
      ensures r[i] == name[i]
    {
    }
  }

  /**
   * `re.match(pattern, name)` with the pattern anchored at the end by `\.TIF$`:
   * the nine fields when `name` matches, `None` otherwise. The result is the
   * only well-formed record that renders to `name`.
   */
  function Decode(name: string, rule: SurfaceRule): (r: Option<Details>)
    ensures r.Some? ==> WellFormed(r.value, rule) && Render(r.value) == name
    ensures r.None? ==> forall d :: WellFormed(d, rule) ==> Render(d) != name
  {
    if |name| >= MinLength && Punctuated(name) && WellFormed(Fields(name), rule) then
      FieldsRender(name);
      Some(Fields(name))
    else
      assert forall d :: WellFormed(d, rule) ==> Render(d) != name by {
        forall d | WellFormed(d, rule)
          ensures Render(d) != name
        {
          WellFormedWidths(d, rule);
          RenderLayout(d);
        }
      }
      None
  }

  /** Rendering a well-formed record is injective. */
  lemma RenderInjective(d: Details, e: Details, rule: SurfaceRule)
    requires WellFormed(d, rule) && WellFormed(e, rule) && Render(d) == Render(e)
    ensures d == e
  {
    WellFormedWidths(d, rule);
    WellFormedWidths(e, rule);
    RenderLayout(d);
    RenderLayout(e);
  }

  /** Decoding a rendered well-formed record gives that record back. */
  lemma DecodeRender(d: Details, rule: SurfaceRule)
    requires WellFormed(d, rule)
    ensures Decode(Render(d), rule) == Some(d)
  {
    var r := Decode(Render(d), rule);
    RenderInjective(d, r.value, rule);
  }
}
