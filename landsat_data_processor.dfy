/**
 * `src/landsat_data_processor.py`: the decoder whose surface field is any
 * two capital letters, and `organize_satellite_data`, which folds a list of
 * file names into one summary per acquisition year.
 */
module LandsatDataProcessor {
  import opened Wrappers
  import opened Text
  import opened Sequences
  import opened ProductId

  /**
   * `decode_satellite_filename`: the nine fields of a name of the product
   * grammar with surface `[A-Z]{2}`, or `None`.
   */
  function DecodeSatelliteFilename(filename: string): (r: Option<Details>)
    ensures r.Some? ==> WellFormed(r.value, AnyUpperPair) && Render(r.value) == filename
    ensures r.None? ==> forall d :: WellFormed(d, AnyUpperPair) ==> Render(d) != filename
  {
    Decode(filename, AnyUpperPair)
  }

  // ---------------------------------------------------------------------
  // The output of organize_satellite_data
  // ---------------------------------------------------------------------

  /** The dict key of one acquisition: satellite, WRS path/row, both dates. */
  datatype GroupKey = GroupKey(satellite: string, wrs: string, acquisitionDate: string, processingDate: string)

  /** One entry of a year's `values`. */
  datatype Group = Group(satellite: string, wrs: string, acquisitionDate: string, processingDate: string, bands: seq<string>)

  /** One year of the returned `OrderedDict`. */
  datatype YearSummary = YearSummary(
    satellites: seq<string>,
    correctionLevel: seq<string>,
    collectionNumber: seq<string>,
    collectionCategory: seq<string>,
    values: seq<Group>,
    missingMonths: seq<string>)

  /** The four per-year sets of the first loop. */
  datatype YearSets = YearSets(
    satellites: set<string>,
    correctionLevel: set<string>,
    collectionNumber: set<string>,
    collectionCategory: set<string>)

  /**
   * One year of `structured_data` during the first loop. Its `values` dict
   * from key to band set is kept as its key order and a map.
   */
  datatype YearAcc = YearAcc(sets: YearSets, order: seq<GroupKey>, bands: map<GroupKey, set<string>>)

  /** One year after the second loop: `values` sorted and `missing_months` added. */
  datatype YearSorted = YearSorted(sets: YearSets, values: seq<Group>, missingMonths: seq<string>)

  const EmptyYear := YearAcc(YearSets({}, {}, {}, {}), [], map[])

  /** `{f"{index:02d}" for index in range(1, 13)}` */
  const AllMonths: set<string> := {"01", "02", "03", "04", "05", "06", "07", "08", "09", "10", "11", "12"}

  /** `acquisition_date[:4]` */
  function YearOf(d: Details): string
  {
    Slice(d.acquisitionDate, 0, 4)
  }

  /** `acquisition_date[4:6]` */
  function MonthOf(date: string): string
  {
    Slice(date, 4, 6)
  }

  function KeyOf(d: Details): GroupKey
  {
    GroupKey(d.satellite, d.wrs, d.acquisitionDate, d.processingDate)
  }

  /** `f'{surface}_{band}'` */
  function BandToken(d: Details): string
  {
    d.surface + "_" + d.band
  }

  /** The sort key `lambda x: x[0][2]`. */
  function AcquisitionDateOf(k: GroupKey): string
  {
    k.acquisitionDate
  }

  function KeyOfGroup(g: Group): GroupKey
  {
    GroupKey(g.satellite, g.wrs, g.acquisitionDate, g.processingDate)
  }

  // ---------------------------------------------------------------------
  // What the result is, stated over the decoded files
  // ---------------------------------------------------------------------

  /**
   * The records of the files that decode, in file order; the others are
   * skipped. A record is here exactly when it is well formed and one of the
   * files is its rendering.
   */
  function Decoded(files: seq<string>): (ds: seq<Details>)
    ensures forall d :: d in ds <==> WellFormed(d, AnyUpperPair) && Render(d) in files
  {
    if files == [] then []
    else
      var init, f := files[..|files| - 1], files[|files| - 1];
      assert files == init + [f];
      match DecodeSatelliteFilename(f)
      case Some(e) =>
        assert forall d :: WellFormed(d, AnyUpperPair) && Render(d) == f ==> d == e by {
          forall d | WellFormed(d, AnyUpperPair) && Render(d) == f
            ensures d == e
          {
            RenderInjective(d, e, AnyUpperPair);
          }
        }
        Decoded(init) + [e]
      case None => Decoded(init)
  }

  ghost function Years(ds: seq<Details>): set<string>
  {
    set d | d in ds :: YearOf(d)
  }

  ghost function Satellites(ds: seq<Details>, year: string): set<string>
  {
    set d | d in ds && YearOf(d) == year :: d.satellite
  }

  ghost function CorrectionLevels(ds: seq<Details>, year: string): set<string>
  {
    set d | d in ds && YearOf(d) == year :: d.correctionLevel
  }

  ghost function CollectionNumbers(ds: seq<Details>, year: string): set<string>
  {
    set d | d in ds && YearOf(d) == year :: d.collectionNumber
  }

  ghost function CollectionCategories(ds: seq<Details>, year: string): set<string>
  {
    set d | d in ds && YearOf(d) == year :: d.collectionCategory
  }

  ghost function KeysIn(ds: seq<Details>, year: string): set<GroupKey>
  {
    set d | d in ds && YearOf(d) == year :: KeyOf(d)
  }

  /** The band tokens of the files of one acquisition. */
  ghost function BandsOf(ds: seq<Details>, k: GroupKey): set<string>
  {
    set d | d in ds && KeyOf(d) == k :: BandToken(d)
  }

  /** The key of every record of `year`, in record order, repeats included. */
  function YearKeys(ds: seq<Details>, year: string): (ks: seq<GroupKey>)
    ensures Elems(ks) == KeysIn(ds, year)
  {
    if ds == [] then []
    else
      var init, d := ds[..|ds| - 1], ds[|ds| - 1];
      assert ds == init + [d];
      var rest := YearKeys(init, year);
      var last := if YearOf(d) == year then [KeyOf(d)] else [];
      assert Elems(rest + last) == Elems(rest) + Elems(last);
      assert KeysIn(ds, year) == KeysIn(init, year) + Elems(last);
      rest + last
  }

  lemma NoKeysOutsideYears(ds: seq<Details>, year: string)
    requires year !in Years(ds)
    ensures YearKeys(ds, year) == []
  {
  }

  /**
   * The keys of a year's `values` in output order: the dict's key order
   * (first occurrence), stably sorted by acquisition date.
   */
  ghost function GroupOrder(ds: seq<Details>, year: string): seq<GroupKey>
  {
    SortBy(FirstSeen(YearKeys(ds, year)), AcquisitionDateOf)
  }

  ghost function KeysOfGroups(gs: seq<Group>): seq<GroupKey>
  {
    seq(|gs|, j requires 0 <= j < |gs| => KeyOfGroup(gs[j]))
  }

  /** `existing_months` */
  ghost function PresentMonths(gs: seq<Group>): set<string>
  {
    set g | g in gs :: MonthOf(g.acquisitionDate)
  }

  /** `s` is what the source emits for `year` from the records `ds`. */
  ghost predicate Summarises(ds: seq<Details>, year: string, s: YearSummary)
  {
    && Enumerates(s.satellites, Satellites(ds, year))
    && Enumerates(s.correctionLevel, CorrectionLevels(ds, year))
    && Enumerates(s.collectionNumber, CollectionNumbers(ds, year))
    && Enumerates(s.collectionCategory, CollectionCategories(ds, year))
    && KeysOfGroups(s.values) == GroupOrder(ds, year)
    && (forall j :: 0 <= j < |s.values| ==>
          SortedEnumeration(s.values[j].bands, BandsOf(ds, KeyOfGroup(s.values[j]))))
    && SortedEnumeration(s.missingMonths, AllMonths - PresentMonths(s.values))
  }

  function YearsOf(organized: seq<(string, YearSummary)>): seq<string>
  {
    seq(|organized|, j requires 0 <= j < |organized| => organized[j].0)
  }

  // ---------------------------------------------------------------------
  // The three loops
  // ---------------------------------------------------------------------

  /** The state of `structured_data` after the first loop has seen the records `ds`. */
  ghost predicate Accumulated(ds: seq<Details>, acc: map<string, YearAcc>)
  {
    && acc.Keys == Years(ds)
    && forall y :: y in acc ==> YearAccumulated(ds, y, acc[y])
  }

  ghost predicate YearAccumulated(ds: seq<Details>, year: string, ya: YearAcc)
  {
    && ya.sets == YearSets(Satellites(ds, year), CorrectionLevels(ds, year),
                           CollectionNumbers(ds, year), CollectionCategories(ds, year))
    && ya.order == FirstSeen(YearKeys(ds, year))
    && ya.bands.Keys == Elems(ya.order)
    && forall k :: k in ya.bands ==> ya.bands[k] == BandsOf(ds, k)
  }

  /** How the per-year views of the records grow when one more record is seen. */
  lemma YearViewsStep(ds: seq<Details>, d: Details, year: string)
    ensures Satellites(ds + [d], year) == Satellites(ds, year) + (if YearOf(d) == year then {d.satellite} else {})
    ensures CorrectionLevels(ds + [d], year) == CorrectionLevels(ds, year) + (if YearOf(d) == year then {d.correctionLevel} else {})
    ensures CollectionNumbers(ds + [d], year) == CollectionNumbers(ds, year) + (if YearOf(d) == year then {d.collectionNumber} else {})
    ensures CollectionCategories(ds + [d], year) == CollectionCategories(ds, year) + (if YearOf(d) == year then {d.collectionCategory} else {})
    ensures YearKeys(ds + [d], year) == YearKeys(ds, year) + (if YearOf(d) == year then [KeyOf(d)] else [])
  {
    assert (ds + [d])[..|ds|] == ds;
  }

  lemma BandsStep(ds: seq<Details>, d: Details, k: GroupKey)
    ensures BandsOf(ds + [d], k) == BandsOf(ds, k) + (if KeyOf(d) == k then {BandToken(d)} else {})
  {
  }

  lemma YearsStep(ds: seq<Details>, d: Details)
    ensures Years(ds + [d]) == Years(ds) + {YearOf(d)}
  {
  }

  /** A key filed under a year carries that year's date. */
  lemma KeysInYear(ds: seq<Details>, year: string, k: GroupKey)
    requires k in KeysIn(ds, year)
    ensures Slice(k.acquisitionDate, 0, 4) == year
  {
  }

  /**
   * The first loop's body on a year's entry: add the record's four values
   * to the year's sets and its band token to the set of its key, which
   * `setdefault` creates (at the end of the key order) on first sight.
   */
  function AddToYear(entry: YearAcc, d: Details): YearAcc
  {
    var key := KeyOf(d);
    var known := key in entry.bands;
    var sets := YearSets(entry.sets.satellites + {d.satellite},
                         entry.sets.correctionLevel + {d.correctionLevel},
                         entry.sets.collectionNumber + {d.collectionNumber},
                         entry.sets.collectionCategory + {d.collectionCategory});
    var bands := if known then entry.bands[key] else {};
    var order := if known then entry.order else entry.order + [key];
    YearAcc(sets, order, entry.bands[key := bands + {BandToken(d)}])
  }

  lemma YearStep(ds: seq<Details>, d: Details, entry: YearAcc)
    requires YearAccumulated(ds, YearOf(d), entry)
    ensures YearAccumulated(ds + [d], YearOf(d), AddToYear(entry, d))
  {
    YearViewsStep(ds, d, YearOf(d));
    YearOrderStep(ds, d, entry);
    YearBandsStep(ds, d, entry);
  }

  lemma YearOrderStep(ds: seq<Details>, d: Details, entry: YearAcc)
    requires entry.order == FirstSeen(YearKeys(ds, YearOf(d)))
    requires entry.bands.Keys == Elems(entry.order)
    ensures var next := AddToYear(entry, d);
      next.order == FirstSeen(YearKeys(ds + [d], YearOf(d))) && next.bands.Keys == Elems(next.order)
  {
    var key := KeyOf(d);
    var next := AddToYear(entry, d);
    AddToYearKeys(entry, d);
    YearKeysStep(ds, d);
    FirstSeenStep(YearKeys(ds, YearOf(d)), key);
    assert next.bands.Keys == Elems(next.order) by {
      ElemsAppend(entry.order, key);
    }
  }

  /** A record's key is appended to the year's order when new, and is a key of its bands afterwards. */
  lemma AddToYearKeys(entry: YearAcc, d: Details)
    ensures var next := AddToYear(entry, d);
      && next.order == (if KeyOf(d) in entry.bands then entry.order else entry.order + [KeyOf(d)])
      && next.bands.Keys == entry.bands.Keys + {KeyOf(d)}
  {
  }

  lemma YearKeysStep(ds: seq<Details>, d: Details)
    ensures YearKeys(ds + [d], YearOf(d)) == YearKeys(ds, YearOf(d)) + [KeyOf(d)]
  {
    assert (ds + [d])[..|ds|] == ds;
  }

  lemma YearBandsStep(ds: seq<Details>, d: Details, entry: YearAcc)
    requires entry.bands.Keys == KeysIn(ds, YearOf(d))
    requires forall k :: k in entry.bands ==> entry.bands[k] == BandsOf(ds, k)
    ensures var next := AddToYear(entry, d);
      forall k :: k in next.bands ==> next.bands[k] == BandsOf(ds + [d], k)
  {
    var year, key := YearOf(d), KeyOf(d);
    var next := AddToYear(entry, d);
    forall k | k in next.bands
      ensures next.bands[k] == BandsOf(ds + [d], k)
    {
      BandsStep(ds, d, k);
      if k == key && key !in entry.bands {
        assert forall e :: e in ds && KeyOf(e) == k ==> KeyOf(e) in KeysIn(ds, year);
      }
    }
  }

  lemma NewYearStep(ds: seq<Details>, d: Details)
    requires YearOf(d) !in Years(ds)
    ensures YearAccumulated(ds + [d], YearOf(d), AddToYear(EmptyYear, d))
  {
    var year, key := YearOf(d), KeyOf(d);
    YearViewsStep(ds, d, year);
    NoKeysOutsideYears(ds, year);
    FirstSeenStep(YearKeys(ds, year), key);
    assert Satellites(ds, year) == {};
    assert CorrectionLevels(ds, year) == {};
    assert CollectionNumbers(ds, year) == {};
    assert CollectionCategories(ds, year) == {};
    BandsStep(ds, d, key);
    assert forall e :: e in ds && KeyOf(e) == key ==> YearOf(e) == year;
    assert BandsOf(ds, key) == {};
  }

  lemma OtherYearStep(ds: seq<Details>, d: Details, year: string, entry: YearAcc)
    requires year != YearOf(d) && YearAccumulated(ds, year, entry)
    ensures YearAccumulated(ds + [d], year, entry)
  {
    YearViewsStep(ds, d, year);
    assert YearKeys(ds + [d], year) == YearKeys(ds, year);
    forall k | k in entry.bands
      ensures entry.bands[k] == BandsOf(ds + [d], k)
    {
      KeysInYear(ds, year, k);
      BandsStep(ds, d, k);
    }
  }

  /** The first loop's body, on the record of one decodable file. */
  method AddRecord(acc: map<string, YearAcc>, d: Details, ghost ds: seq<Details>) returns (acc': map<string, YearAcc>)
    requires Accumulated(ds, acc)
    ensures Accumulated(ds + [d], acc')
  {
    var year := YearOf(d);
    var entry := if year in acc then acc[year] else EmptyYear;
    acc' := acc[year := AddToYear(entry, d)];
    YearsStep(ds, d);
    assert acc'.Keys == Years(ds + [d]);
    forall y | y in acc'
      ensures YearAccumulated(ds + [d], y, acc'[y])
    {
      if y == year {
        if year in acc {
          YearStep(ds, d, entry);
        } else {
          NewYearStep(ds, d);
        }
      } else {
        OtherYearStep(ds, d, y, acc[y]);
      }
    }
  }

  /** The second loop's result for one year. */
  ghost predicate Finished(ya: YearAcc, ys: YearSorted)
  {
    && ys.sets == ya.sets
    && KeysOfGroups(ys.values) == SortBy(ya.order, AcquisitionDateOf)
    && (forall j :: 0 <= j < |ys.values| ==>
          KeyOfGroup(ys.values[j]) in ya.bands &&
          SortedEnumeration(ys.values[j].bands, ya.bands[KeyOfGroup(ys.values[j])]))
    && SortedEnumeration(ys.missingMonths, AllMonths - PresentMonths(ys.values))
  }

  /**
   * The second loop's body for one year: sort the keys by acquisition date,
   * sort each band set, and list the months with no acquisition.
   */
  method FinishYear(ya: YearAcc) returns (ys: YearSorted)
    requires ya.bands.Keys == Elems(ya.order)
    ensures Finished(ya, ys)
  {
    var keys := SortBy(ya.order, AcquisitionDateOf);
    assert forall k :: k in keys ==> k in ya.bands by {
      forall k | k in keys
        ensures k in ya.bands
      {
        assert k in multiset(keys);
      }
    }
    var values := BuildGroups(keys, ya.bands);
    var missing := MissingMonths(values);
    ys := YearSorted(ya.sets, values, missing);
  }

  /** The list comprehension that turns each sorted key into an entry with its sorted bands. */
  method BuildGroups(keys: seq<GroupKey>, bands: map<GroupKey, set<string>>) returns (values: seq<Group>)
    requires forall k :: k in keys ==> k in bands
    ensures KeysOfGroups(values) == keys
    ensures forall m :: 0 <= m < |values| ==> SortedEnumeration(values[m].bands, bands[keys[m]])
  {
    values := [];
    var j := 0;
    while j < |keys|
      invariant j <= |keys| && |values| == j
      invariant forall m :: 0 <= m < j ==> KeyOfGroup(values[m]) == keys[m]
      invariant forall m :: 0 <= m < j ==> SortedEnumeration(values[m].bands, bands[keys[m]])
    {
      var k := keys[j];
      var sorted := SortedOf(bands[k]);
      values := values + [Group(k.satellite, k.wrs, k.acquisitionDate, k.processingDate, sorted)];
      j := j + 1;
    }
  }

  /** `sorted(all_months - existing_months)` */
  method MissingMonths(values: seq<Group>) returns (missing: seq<string>)
    ensures SortedEnumeration(missing, AllMonths - PresentMonths(values))
  {
    var existing := set g | g in values :: MonthOf(g.acquisitionDate);
    missing := SortedOf(AllMonths - existing);
  }

  /** One year of the third loop's output: each set turned into a list. */
  ghost predicate Emitted(ys: YearSorted, s: YearSummary)
  {
    && Enumerates(s.satellites, ys.sets.satellites)
    && Enumerates(s.correctionLevel, ys.sets.correctionLevel)
    && Enumerates(s.collectionNumber, ys.sets.collectionNumber)
    && Enumerates(s.collectionCategory, ys.sets.collectionCategory)
    && s.values == ys.values
    && s.missingMonths == ys.missingMonths
  }

  lemma SummarisesFromLoops(ds: seq<Details>, year: string, ya: YearAcc, ys: YearSorted, s: YearSummary)
    requires YearAccumulated(ds, year, ya) && Finished(ya, ys) && Emitted(ys, s)
    ensures Summarises(ds, year, s)
  {
  }

  /** The first loop: decode each file, skip failures, fill the per-year sets and band dicts. */
  method Accumulate(files: seq<string>) returns (structured: map<string, YearAcc>)
    ensures Accumulated(Decoded(files), structured)
  {
    structured := map[];
    var i := 0;
    while i < |files|
      invariant i <= |files|
      invariant Accumulated(Decoded(files[..i]), structured)
    {
      assert files[..i + 1][..i] == files[..i];
      var details := DecodeSatelliteFilename(files[i]);
      if details.Some? {
        structured := AddRecord(structured, details.value, Decoded(files[..i]));
      }
      i := i + 1;
    }
    assert files[..i] == files;
  }

  /** The second loop: sort each year's groups and bands, find its missing months. */
  method FinishYears(structured: map<string, YearAcc>) returns (finished: map<string, YearSorted>)
    requires forall y :: y in structured ==> structured[y].bands.Keys == Elems(structured[y].order)
    ensures finished.Keys == structured.Keys
    ensures forall y :: y in finished ==> Finished(structured[y], finished[y])
  {
    finished := map[];
    var pending := structured.Keys;
    while pending != {}
      invariant pending <= structured.Keys
      invariant finished.Keys == structured.Keys - pending
      invariant forall y :: y in finished ==> Finished(structured[y], finished[y])
      decreases pending
    {
      var year :| year in pending;
      var done := FinishYear(structured[year]);
      finished := finished[year := done];
      pending := pending - {year};
    }
  }

  /** The third loop: emit the years in ascending order, each set as a list. */
  method EmitYears(finished: map<string, YearSorted>) returns (organized: seq<(string, YearSummary)>)
    ensures SortedEnumeration(YearsOf(organized), finished.Keys)
    ensures forall m :: 0 <= m < |organized| ==>
      organized[m].0 in finished && Emitted(finished[organized[m].0], organized[m].1)
  {
    var years := SortedOf(finished.Keys);
    organized := [];
    var j := 0;
    while j < |years|
      invariant j <= |years|
      invariant YearsOf(organized) == years[..j]
      invariant forall m :: 0 <= m < j ==> Emitted(finished[years[m]], organized[m].1)
    {
      var year := years[j];
      var f := finished[year];
      var satellites := ListOf(f.sets.satellites);
      var levels := ListOf(f.sets.correctionLevel);
      var numbers := ListOf(f.sets.collectionNumber);
      var categories := ListOf(f.sets.collectionCategory);
      organized := organized + [(year, YearSummary(satellites, levels, numbers, categories, f.values, f.missingMonths))];
      assert YearsOf(organized) == years[..j + 1];
      j := j + 1;
    }
    assert years[..j] == years;
  }

  /**
   * `organize_satellite_data`: one summary per acquisition year of the
   * decodable files, years ascending. Files that do not decode are skipped.
   */
  method OrganizeSatelliteData(files: seq<string>) returns (organized: seq<(string, YearSummary)>)
    ensures StrictlyIncreasing(YearsOf(organized))
    ensures Elems(YearsOf(organized)) == Years(Decoded(files))
    ensures forall j :: 0 <= j < |organized| ==> Summarises(Decoded(files), organized[j].0, organized[j].1)
  {
    var structured := Accumulate(files);
    var finished := FinishYears(structured);
    organized := EmitYears(finished);
    forall m | 0 <= m < |organized|
      ensures Summarises(Decoded(files), organized[m].0, organized[m].1)
    {
      var year := organized[m].0;
      SummarisesFromLoops(Decoded(files), year, structured[year], finished[year], organized[m].1);
    }
  }

  // ---------------------------------------------------------------------
  // Properties of the result
  // ---------------------------------------------------------------------

  /** The example of a product name and its fields. */
  lemma DecodeExample()
    ensures DecodeSatelliteFilename("LC08_L2SP_123045_20200115_20200120_02_T1_SR_B4.TIF")
         == Some(Details("LC08", "L2SP", "123045", "20200115", "20200120", "02", "T1", "SR", "B4"))
  {
    var d := Details("LC08", "L2SP", "123045", "20200115", "20200120", "02", "T1", "SR", "B4");
    assert WellFormed(d, AnyUpperPair);
    assert d.satellite + "_" + d.correctionLevel + "_" + d.wrs + "_" == "LC08_L2SP_123045_";
    assert d.satellite + "_" + d.correctionLevel + "_" + d.wrs + "_"
      + d.acquisitionDate + "_" + d.processingDate + "_" == "LC08_L2SP_123045_20200115_20200120_";
    assert Render(d) == "LC08_L2SP_123045_20200115_20200120_02_T1_SR_B4.TIF";
    DecodeRender(d, AnyUpperPair);
  }

  /** A name outside the grammar is rejected without an error. */
  lemma DecodeRejectsOtherNames()
    ensures DecodeSatelliteFilename("not_a_valid_filename.TIF").None?
  {
  }

  /** Month `13` is rejected. */
  lemma DecodeRejectsMonthThirteen()
    ensures DecodeSatelliteFilename("LC08_L2SP_123045_20201301_20200120_02_T1_SR_B4.TIF").None?
  {
    var name := "LC08_L2SP_123045_20201301_20200120_02_T1_SR_B4.TIF";
    assert name[21] == '1';
    assert name[22] == '3';
    assert Fields(name).acquisitionDate[4] == name[21];
    assert Fields(name).acquisitionDate[5] == name[22];
  }

  /** Day `00` is rejected. */
  lemma DecodeRejectsDayZero()
    ensures DecodeSatelliteFilename("LC08_L2SP_123045_20200100_20200120_02_T1_SR_B4.TIF").None?
  {
    var name := "LC08_L2SP_123045_20200100_20200120_02_T1_SR_B4.TIF";
    assert name[23] == '0';
    assert name[24] == '0';
    assert Fields(name).acquisitionDate[6] == name[23];
    assert Fields(name).acquisitionDate[7] == name[24];
  }

  /** Day `30` of month `02` passes: days are checked against `01`-`31` only. */
  lemma DecodeAcceptsFebruaryThirtieth()
    ensures DecodeSatelliteFilename("LC08_L2SP_123045_20200230_20200301_02_T1_SR_B4.TIF").Some?
  {
    var d := Details("LC08", "L2SP", "123045", "20200230", "20200301", "02", "T1", "SR", "B4");
    assert WellFormed(d, AnyUpperPair);
    assert d.satellite + "_" + d.correctionLevel + "_" + d.wrs + "_" == "LC08_L2SP_123045_";
    assert d.satellite + "_" + d.correctionLevel + "_" + d.wrs + "_"
      + d.acquisitionDate + "_" + d.processingDate + "_" == "LC08_L2SP_123045_20200230_20200301_";
    assert Render(d) == "LC08_L2SP_123045_20200230_20200301_02_T1_SR_B4.TIF";
    DecodeRender(d, AnyUpperPair);
  }

  /** `values` has exactly one entry per distinct (satellite, wrs, acquisition date, processing date) of the year. */
  lemma ValuesOnePerAcquisition(ds: seq<Details>, year: string, s: YearSummary)
    requires Summarises(ds, year, s)
    ensures Distinct(KeysOfGroups(s.values))
    ensures Elems(KeysOfGroups(s.values)) == KeysIn(ds, year)
  {
    var firsts := FirstSeen(YearKeys(ds, year));
    DistinctMultiset(firsts);
    MultisetOfSet(GroupOrder(ds, year), Elems(firsts));
  }

  /**
   * `values` is ordered by acquisition date, and the entries of one date keep
   * the order in which their keys were first seen (`sorted` is stable).
   */
  lemma ValuesInDateOrder(ds: seq<Details>, year: string, s: YearSummary)
    requires Summarises(ds, year, s)
    ensures forall i, j :: 0 <= i < j < |s.values| ==>
      LessEq(s.values[i].acquisitionDate, s.values[j].acquisitionDate)
    ensures forall date :: WithKey(KeysOfGroups(s.values), AcquisitionDateOf, date)
                        == WithKey(FirstSeen(YearKeys(ds, year)), AcquisitionDateOf, date)
  {
    var keys := KeysOfGroups(s.values);
    SortedPairwise(keys, AcquisitionDateOf);
    forall i, j | 0 <= i < j < |s.values|
      ensures LessEq(s.values[i].acquisitionDate, s.values[j].acquisitionDate)
    {
      assert AcquisitionDateOf(keys[i]) == s.values[i].acquisitionDate;
      assert AcquisitionDateOf(keys[j]) == s.values[j].acquisitionDate;
    }
  }

  lemma AllMonthsCount()
    ensures |AllMonths| == 12
  {
  }

  /** A valid date's month (`date[4:6]`) is one of `01`..`12`. */
  lemma DateMonth(date: string)
    requires IsDate(date)
    ensures MonthOf(date) in AllMonths
  {
    assert MonthOf(date) == [date[4], date[5]];
  }

  /**
   * `missing_months` and the months present in `values` split `01`..`12`
   * between them; an emitted year has a value, so at most 11 months miss.
   */
  lemma MissingMonthsComplement(files: seq<string>, year: string, s: YearSummary)
    requires year in Years(Decoded(files)) && Summarises(Decoded(files), year, s)
    ensures Elems(s.missingMonths) !! PresentMonths(s.values)
    ensures Elems(s.missingMonths) + PresentMonths(s.values) == AllMonths
    ensures |s.values| > 0 && |s.missingMonths| <= 11
  {
    var ds := Decoded(files);
    PresentMonthsValid(files, year, s);
    var m := SomeMonthPresent(ds, year, s);
    AllMonthsCount();
    assert Elems(s.missingMonths) <= AllMonths - {m};
    DistinctCardinality(s.missingMonths);
  }

  /** Every group's month is one of the twelve. */
  lemma PresentMonthsValid(files: seq<string>, year: string, s: YearSummary)
    requires Summarises(Decoded(files), year, s)
    ensures PresentMonths(s.values) <= AllMonths
  {
    var ds := Decoded(files);
    var keys := KeysOfGroups(s.values);
    ValuesOnePerAcquisition(ds, year, s);
    forall g | g in s.values
      ensures MonthOf(g.acquisitionDate) in AllMonths
    {
      var j :| 0 <= j < |s.values| && s.values[j] == g;
      assert keys[j] == KeyOfGroup(g) && keys[j] in Elems(keys);
      var d :| d in ds && YearOf(d) == year && KeyOf(d) == KeyOfGroup(g);
      DateMonth(d.acquisitionDate);
    }
  }

  /** A year that has records has a group, and so a present month. */
  lemma SomeMonthPresent(ds: seq<Details>, year: string, s: YearSummary) returns (m: string)
    requires year in Years(ds) && Summarises(ds, year, s)
    ensures |s.values| > 0 && m in PresentMonths(s.values)
  {
    var keys := KeysOfGroups(s.values);
    ValuesOnePerAcquisition(ds, year, s);
    var d :| d in ds && YearOf(d) == year;
    assert KeyOf(d) in Elems(keys);
    var j :| 0 <= j < |s.values| && keys[j] == KeyOf(d);
    m := MonthOf(s.values[j].acquisitionDate);
  }

  lemma RepeatedRecordOrder(ds: seq<Details>, e: Details, year: string)
    requires e in ds
    ensures FirstSeen(YearKeys(ds + [e], year)) == FirstSeen(YearKeys(ds, year))
  {
    YearViewsStep(ds, e, year);
    if YearOf(e) == year {
      assert KeyOf(e) in KeysIn(ds, year);
      assert KeyOf(e) in Elems(YearKeys(ds, year));
      assert KeyOf(e) in YearKeys(ds, year);
      assert YearKeys(ds + [e], year) == YearKeys(ds, year) + [KeyOf(e)];
      FirstSeenStep(YearKeys(ds, year), KeyOf(e));
    } else {
      assert YearKeys(ds + [e], year) == YearKeys(ds, year);
    }
  }

  /** A record that is already among `ds` leaves every per-year view of `ds` as it was. */
  lemma RepeatedRecordViews(ds: seq<Details>, e: Details, year: string)
    requires e in ds
    ensures Years(ds + [e]) == Years(ds)
    ensures Satellites(ds + [e], year) == Satellites(ds, year)
    ensures CorrectionLevels(ds + [e], year) == CorrectionLevels(ds, year)
    ensures CollectionNumbers(ds + [e], year) == CollectionNumbers(ds, year)
    ensures CollectionCategories(ds + [e], year) == CollectionCategories(ds, year)
    ensures GroupOrder(ds + [e], year) == GroupOrder(ds, year)
    ensures forall k :: BandsOf(ds + [e], k) == BandsOf(ds, k)
  {
    YearsStep(ds, e);
    YearViewsStep(ds, e, year);
    RepeatedRecordOrder(ds, e, year);
    forall k
      ensures BandsOf(ds + [e], k) == BandsOf(ds, k)
    {
      BandsStep(ds, e, k);
    }
  }

  /**
   * The band sets, the four per-year sets and the key order are sets or
   * first occurrences, so a file supplied a second time changes nothing.
   */
  lemma DuplicateFileChangesNothing(files: seq<string>, f: string, year: string, s: YearSummary)
    requires f in files
    ensures Years(Decoded(files + [f])) == Years(Decoded(files))
    ensures Summarises(Decoded(files + [f]), year, s) <==> Summarises(Decoded(files), year, s)
  {
    var ds := Decoded(files);
    assert (files + [f])[..|files|] == files;
    match DecodeSatelliteFilename(f)
    case None =>
      assert Decoded(files + [f]) == ds;
    case Some(e) =>
      assert Decoded(files + [f]) == ds + [e];
      RepeatedRecordViews(ds, e, year);
  }

  /**
   * The sorted parts of a year's summary are determined by the records:
   * only the order of the four lists made from sets is left open.
   */
  lemma SummaryDetermined(ds: seq<Details>, year: string, s: YearSummary, t: YearSummary)
    requires Summarises(ds, year, s) && Summarises(ds, year, t)
    ensures s.values == t.values && s.missingMonths == t.missingMonths
  {
    var keys := KeysOfGroups(s.values);
    assert |s.values| == |keys| == |t.values|;
    forall j | 0 <= j < |s.values|
      ensures s.values[j] == t.values[j]
    {
      assert keys[j] == KeyOfGroup(s.values[j]) == KeyOfGroup(t.values[j]);
      SortedEnumerationUnique(s.values[j].bands, t.values[j].bands, BandsOf(ds, keys[j]));
    }
    assert s.values == t.values;
    SortedEnumerationUnique(s.missingMonths, t.missingMonths, AllMonths - PresentMonths(s.values));
  }
}
