/**
 * `src/utils.py`: the decoder whose surface field is `ST` or `SR`, and the
 * three helpers that build, group and rename the derived file names of the
 * image pipeline (`<date>_<wrs>_<surface>_<band>_<suffix>.<extension>`).
 */
module Utils {
  import opened Wrappers
  import opened Text
  import opened Sequences
  import opened ProductId
  import LandsatDataProcessor

  // ---------------------------------------------------------------------
  // decode_satellite_filename
  // ---------------------------------------------------------------------

  /**
   * `decode_satellite_filename`: the nine fields of a name of the product
   * grammar with surface `ST|SR`, or `None`.
   */
  function DecodeSatelliteFilename(filename: string): (r: Option<Details>)
    ensures r.Some? ==> WellFormed(r.value, ReflectanceOrTemperature) && Render(r.value) == filename
    ensures r.None? ==> forall d :: WellFormed(d, ReflectanceOrTemperature) ==> Render(d) != filename
  {
    Decode(filename, ReflectanceOrTemperature)
  }

  /** `ST` and `SR` are two capital letters. */
  lemma SurfaceRulesNested(d: Details)
    ensures WellFormed(d, ReflectanceOrTemperature) <==>
              WellFormed(d, AnyUpperPair) && (d.surface == "ST" || d.surface == "SR")
  {
  }

  /**
   * This decoder accepts exactly the names the decoder of
   * `landsat_data_processor.py` accepts with surface `ST` or `SR`, and
   * decodes them to the same fields.
   */
  lemma DecodersAgree(filename: string)
    ensures DecodeSatelliteFilename(filename) ==
      match LandsatDataProcessor.DecodeSatelliteFilename(filename)
      case Some(d) => if d.surface == "ST" || d.surface == "SR" then Some(d) else None
      case None => None
  {
    var u := DecodeSatelliteFilename(filename);
    var l := LandsatDataProcessor.DecodeSatelliteFilename(filename);
    if u.Some? {
      SurfaceRulesNested(u.value);
      DecodeRender(u.value, AnyUpperPair);
    }
    if l.Some? {
      SurfaceRulesNested(l.value);
      if l.value.surface == "ST" || l.value.surface == "SR" {
        DecodeRender(l.value, ReflectanceOrTemperature);
      }
    }
  }

  /**
   * A name with any other surface (`XX`, or the `QA` of a quality band) is
   * decoded by the other decoder and rejected by this one.
   */
  lemma OtherSurfaceRejected(d: Details)
    requires WellFormed(d, AnyUpperPair) && d.surface != "ST" && d.surface != "SR"
    ensures LandsatDataProcessor.DecodeSatelliteFilename(Render(d)) == Some(d)
    ensures DecodeSatelliteFilename(Render(d)) == None
  {
    DecodeRender(d, AnyUpperPair);
    DecodersAgree(Render(d));
  }

  // ---------------------------------------------------------------------
  // create_custom_filename
  // ---------------------------------------------------------------------

  /**
   * `create_custom_filename`: acquisition date, WRS, surface, band, suffix
   * and extension. For decoded fields the name begins with a match of the
   * pattern `group_images_by_date` searches for, at the acquisition date.
   */
  function CreateCustomFilename(details: Details, suffix: string, extension: string): (r: string)
    ensures WellFormed(details, ReflectanceOrTemperature) ==>
              MatchAt(r, 0) && r[..8] == details.acquisitionDate
  {
    var r := details.acquisitionDate + "_" + details.wrs + "_" + details.surface + "_"
             + details.band + "_" + suffix + "." + extension;
    CustomFilenameLayout(details, suffix, extension);
    r
  }

  lemma CustomFilenameLayout(d: Details, suffix: string, extension: string)
    ensures var r := d.acquisitionDate + "_" + d.wrs + "_" + d.surface + "_"
                     + d.band + "_" + suffix + "." + extension;
            WellFormed(d, ReflectanceOrTemperature) ==>
            && MatchAt(r, 0) && r[..8] == d.acquisitionDate
  {
    var r := d.acquisitionDate + "_" + d.wrs + "_" + d.surface + "_"
             + d.band + "_" + suffix + "." + extension;
    if WellFormed(d, ReflectanceOrTemperature) {
      WellFormedWidths(d, ReflectanceOrTemperature);
      CustomFilenameSlices(d.acquisitionDate, d.wrs, d.surface, d.band, suffix, extension);
      DigitsAtSlice(r, 0, 8);
      DigitsAtSlice(r, 9, 6);
      assert r[16] == d.surface[0] && r[17] == d.surface[1];
    }
  }

  /** Where the fields of a custom file name sit, given the widths of date, WRS and surface. */
  lemma CustomFilenameSlices(date: string, wrs: string, surface: string, band: string, suffix: string, extension: string)
    requires |date| == 8 && |wrs| == 6 && |surface| == 2 && |band| > 0
    ensures var r := date + "_" + wrs + "_" + surface + "_" + band + "_" + suffix + "." + extension;
            && |r| >= 20 && r[..8] == date && r[8] == '_'
            && r[9..15] == wrs && r[15] == '_' && r[16] == surface[0] && r[17] == surface[1]
            && r[18] == '_' && r[19] == band[0]
  {
  }

  // ---------------------------------------------------------------------
  // group_images_by_date
  // ---------------------------------------------------------------------

  /** `os.path.basename`: the text after the last `/`. */
  function Basename(path: string): (r: string)
    ensures |r| <= |path| && r == path[|path| - |r|..]
    ensures '/' !in r
    ensures |r| < |path| ==> path[|path| - |r| - 1] == '/'
  {
    path[RFind(path, '/') + 1..]
  }

  /** `\d{n}` at position `i` of `s`. */
  predicate DigitsAt(s: string, i: nat, n: nat)
    requires i + n <= |s|
    decreases n
  {
    n == 0 || (IsDigit(s[i]) && DigitsAt(s, i + 1, n - 1))
  }

  lemma {:induction false} DigitsAtSlice(s: string, i: nat, n: nat)
    requires i + n <= |s|
    ensures DigitsAt(s, i, n) <==> AllDigits(s[i..i + n])
    decreases n
  {
    if n > 0 {
      DigitsAtSlice(s, i + 1, n - 1);
      assert s[i..i + n] == [s[i]] + s[i + 1..i + n];
    }
  }

  /** `\d{8}_\d{6}_(ST|SR)_[A-Z0-9_]+` matches at position `i` of `s`. */
  predicate MatchAt(s: string, i: nat)
  {
    && i + 20 <= |s|
    && DigitsAt(s, i, 8) && s[i + 8] == '_'
    && DigitsAt(s, i + 9, 6) && s[i + 15] == '_'
    && s[i + 16] == 'S' && (s[i + 17] == 'T' || s[i + 17] == 'R') && s[i + 18] == '_'
    && IsBandChar(s[i + 19])
  }

  /** `re.search` from position `i`: the first position from `i` on where the pattern matches. */
  function SearchFrom(s: string, i: nat): (r: Option<nat>)
    requires i <= |s|
    ensures r.Some? ==> i <= r.value && r.value + 20 <= |s|
    decreases |s| - i
  {
    if |s| < i + 20 then None
    else if MatchAt(s, i) then Some(i)
    else SearchFrom(s, i + 1)
  }

  /** The search finds the leftmost match at or after `i`, and `None` only when there is none. */
  lemma {:induction false} SearchFromLeftmost(s: string, i: nat)
    requires i <= |s|
    ensures var r := SearchFrom(s, i);
            && (r.Some? ==> i <= r.value && MatchAt(s, r.value))
            && (r.Some? ==> forall j :: i <= j < r.value ==> !MatchAt(s, j))
            && (r.None? ==> forall j :: i <= j ==> !MatchAt(s, j))
    decreases |s| - i
  {
    if |s| >= i + 20 && !MatchAt(s, i) {
      SearchFromLeftmost(s, i + 1);
    }
  }

  /** The date a path is filed under: the eight digits at the leftmost match in its basename. */
  function DateKey(path: string): Option<string>
  {
    var name := Basename(path);
    match SearchFrom(name, 0)
    case Some(i) => Some(name[i..i + 8])
    case None => None
  }

  /** A path is kept exactly when its basename matches somewhere. */
  lemma DateKeyNone(path: string)
    ensures DateKey(path).None? <==> forall i :: !MatchAt(Basename(path), i)
  {
    SearchFromLeftmost(Basename(path), 0);
  }

  /** A kept path is filed under the eight digits of the leftmost match in its basename. */
  lemma DateKeyLeftmost(path: string)
    requires DateKey(path).Some?
    ensures exists i: nat :: && MatchAt(Basename(path), i)
                             && (forall j :: 0 <= j < i ==> !MatchAt(Basename(path), j))
                             && DateKey(path).value == Basename(path)[i..i + 8]
  {
    var name := Basename(path);
    SearchFromLeftmost(name, 0);
    var i := SearchFrom(name, 0).value;
    assert DateKey(path).value == name[i..i + 8];
  }

  /** The date a path is filed under is eight digits. */
  lemma DateKeyDigits(path: string)
    requires DateKey(path).Some?
    ensures |DateKey(path).value| == 8 && AllDigits(DateKey(path).value)
  {
    var name := Basename(path);
    SearchFromLeftmost(name, 0);
    var i := SearchFrom(name, 0).value;
    DigitsAtSlice(name, i, 8);
  }

  // The dict is built by one pass that files each path under its key. The
  // functions below describe that pass for any key function, so that their
  // proofs never look inside `DateKey`; the method instantiates them with it.

  /** The paths of `paths` that have a key, in their order. */
  function KeptPaths(paths: seq<string>, key: string -> Option<string>): seq<string>
  {
    if paths == [] then []
    else
      var init, p := paths[..|paths| - 1], paths[|paths| - 1];
      KeptPaths(init, key) + (if key(p).Some? then [p] else [])
  }

  /** The key of each kept path, in the order of `paths`. */
  function KeptDates(paths: seq<string>, key: string -> Option<string>): seq<string>
  {
    if paths == [] then []
    else
      var init, p := paths[..|paths| - 1], paths[|paths| - 1];
      KeptDates(init, key) + (match key(p) case Some(t) => [t] case None => [])
  }

  /** The paths whose key is `t`, in their order in `paths`. */
  function PathsOn(paths: seq<string>, key: string -> Option<string>, t: string): seq<string>
  {
    if paths == [] then []
    else
      var init, p := paths[..|paths| - 1], paths[|paths| - 1];
      PathsOn(init, key, t) + (if key(p) == Some(t) then [p] else [])
  }

  lemma KeptPathsStep(paths: seq<string>, key: string -> Option<string>, p: string)
    ensures key(p).Some? ==> KeptPaths(paths + [p], key) == KeptPaths(paths, key) + [p]
    ensures key(p).None? ==> KeptPaths(paths + [p], key) == KeptPaths(paths, key)
  {
    assert (paths + [p])[..|paths|] == paths;
  }

  lemma KeptDatesStep(paths: seq<string>, key: string -> Option<string>, p: string)
    ensures key(p).Some? ==> KeptDates(paths + [p], key) == KeptDates(paths, key) + [key(p).value]
    ensures key(p).None? ==> KeptDates(paths + [p], key) == KeptDates(paths, key)
  {
    assert (paths + [p])[..|paths|] == paths;
  }

  lemma PathsOnStep(paths: seq<string>, key: string -> Option<string>, p: string, t: string)
    ensures key(p) == Some(t) ==> PathsOn(paths + [p], key, t) == PathsOn(paths, key, t) + [p]
    ensures key(p) != Some(t) ==> PathsOn(paths + [p], key, t) == PathsOn(paths, key, t)
  {
    assert (paths + [p])[..|paths|] == paths;
  }

  /** Every occurrence of a path with a key is kept, and nothing else. */
  lemma {:induction false} KeptPathsContents(paths: seq<string>, key: string -> Option<string>)
    ensures forall p :: multiset(KeptPaths(paths, key))[p] == if key(p).Some? then multiset(paths)[p] else 0
  {
    if paths != [] {
      var init, q := paths[..|paths| - 1], paths[|paths| - 1];
      assert paths == init + [q];
      KeptPathsContents(init, key);
      KeptPathsStep(init, key, q);
    }
  }

  /** There is one key per kept path, and the keys are those of the paths. */
  lemma {:induction false} KeptDatesContents(paths: seq<string>, key: string -> Option<string>)
    ensures |KeptDates(paths, key)| == |KeptPaths(paths, key)|
    ensures forall t :: t in KeptDates(paths, key) <==> exists p :: p in paths && key(p) == Some(t)
  {
    if paths != [] {
      var init, q := paths[..|paths| - 1], paths[|paths| - 1];
      assert paths == init + [q];
      KeptDatesContents(init, key);
      KeptDatesStep(init, key, q);
      KeptPathsStep(init, key, q);
      assert forall p :: p in paths <==> p in init || p == q;
    }
  }

  /** Every occurrence of a path of key `t` is filed under `t`, and nothing else is. */
  lemma {:induction false} PathsOnContents(paths: seq<string>, key: string -> Option<string>, t: string)
    ensures forall p :: multiset(PathsOn(paths, key, t))[p] == if key(p) == Some(t) then multiset(paths)[p] else 0
  {
    if paths != [] {
      var init, q := paths[..|paths| - 1], paths[|paths| - 1];
      assert paths == init + [q];
      PathsOnContents(init, key, t);
      PathsOnStep(init, key, q, t);
    }
  }

  /**
   * The dict after the paths `paths`: its keys in insertion order are the
   * keys first seen, and each maps to the paths filed under it so far.
   */
  ghost predicate GroupedSoFar(paths: seq<string>, key: string -> Option<string>,
                               dates: seq<string>, grouped: map<string, seq<string>>)
  {
    && dates == FirstSeen(KeptDates(paths, key))
    && (forall t :: t in grouped <==> t in dates)
    && (forall t :: t in grouped ==> grouped[t] == PathsOn(paths, key, t))
  }

  /**
   * `group_images_by_date`: the dict's keys in insertion order (`dates`) and
   * the dict itself (`grouped`). Each date appears once, in first-seen order,
   * and maps to the paths filed under it in input order.
   */
  method GroupImagesByDate(imagePaths: seq<string>) returns (dates: seq<string>, grouped: map<string, seq<string>>)
    ensures dates == FirstSeen(KeptDates(imagePaths, DateKey))
    ensures grouped.Keys == Elems(dates)
    ensures forall t :: t in grouped ==> grouped[t] == PathsOn(imagePaths, DateKey, t)
  {
    dates, grouped := [], map[];
    var n := 0;
    assert imagePaths[..n] == [];
    while n < |imagePaths|
      invariant n <= |imagePaths|
      invariant GroupedSoFar(imagePaths[..n], DateKey, dates, grouped)
    {
      assert imagePaths[..n + 1] == imagePaths[..n] + [imagePaths[n]];
      dates, grouped := FileImage(imagePaths[n], dates, grouped, imagePaths[..n]);
      n := n + 1;
    }
    GroupedAll(imagePaths, n, DateKey, dates, grouped);
  }

  /**
   * The loop's body for one path: file it under the date of its leftmost
   * match, or skip it. `seen` are the paths before it.
   */
  method FileImage(imagePath: string, dates: seq<string>, grouped: map<string, seq<string>>, ghost seen: seq<string>)
    returns (dates': seq<string>, grouped': map<string, seq<string>>)
    requires GroupedSoFar(seen, DateKey, dates, grouped)
    ensures GroupedSoFar(seen + [imagePath], DateKey, dates', grouped')
  {
    // The base name, the search and its first group.
    var found := DateKey(imagePath);
    if found.Some? {
      var date := found.value;
      // The defaultdict inserts an empty list for a date it has not seen.
      var group := if date in grouped then grouped[date] else [];
      dates' := if date in grouped then dates else dates + [date];
      grouped' := grouped[date := group + [imagePath]];
      FiledStep(seen, DateKey, imagePath, date, dates, grouped, dates', grouped');
    } else {
      dates', grouped' := dates, grouped;
      SkippedStep(seen, DateKey, imagePath, dates, grouped);
    }
  }

  /** After the last path, the dict is the grouping of all the paths. */
  lemma GroupedAll(imagePaths: seq<string>, n: nat, key: string -> Option<string>,
                   dates: seq<string>, grouped: map<string, seq<string>>)
    requires n == |imagePaths| && GroupedSoFar(imagePaths[..n], key, dates, grouped)
    ensures dates == FirstSeen(KeptDates(imagePaths, key))
    ensures grouped.Keys == Elems(dates)
    ensures forall t :: t in grouped ==> grouped[t] == PathsOn(imagePaths, key, t)
  {
    assert imagePaths[..n] == imagePaths;
  }

  /** The loop's step for a path that has a key. */
  lemma FiledStep(paths: seq<string>, key: string -> Option<string>, p: string, date: string,
                    dates: seq<string>, grouped: map<string, seq<string>>,
                    dates': seq<string>, grouped': map<string, seq<string>>)
    requires key(p) == Some(date) && GroupedSoFar(paths, key, dates, grouped)
    requires dates' == if date in grouped then dates else dates + [date]
    requires grouped' == grouped[date := (if date in grouped then grouped[date] else []) + [p]]
    ensures GroupedSoFar(paths + [p], key, dates', grouped')
  {
    var group := if date in grouped then grouped[date] else [];
    DatesStep(paths, key, p, date, dates);
    GroupsStep(paths, key, p, date, grouped);
    KeysStep(date, dates, grouped, group + [p]);
  }

  /** Inserting a date into the dict and, when new, into its key order keeps the two in step. */
  lemma KeysStep(date: string, dates: seq<string>, grouped: map<string, seq<string>>, group: seq<string>)
    requires forall t :: t in grouped <==> t in dates
    ensures var dates' := if date in grouped then dates else dates + [date];
            forall t :: t in grouped[date := group] <==> t in dates'
  {
    var dates' := if date in grouped then dates else dates + [date];
    forall t
      ensures t in grouped[date := group] <==> t in dates'
    {
      assert t in dates' <==> t in dates || t == date;
    }
  }

  /** The dict's key order after one more kept path. */
  lemma DatesStep(paths: seq<string>, key: string -> Option<string>, p: string, date: string, dates: seq<string>)
    requires key(p) == Some(date) && dates == FirstSeen(KeptDates(paths, key))
    ensures FirstSeen(KeptDates(paths + [p], key)) == if date in dates then dates else dates + [date]
  {
    KeptDatesStep(paths, key, p);
    FirstSeenStep(KeptDates(paths, key), date);
    assert date in Elems(dates) <==> date in Elems(KeptDates(paths, key));
  }

  /** The dict's lists after one more kept path. */
  lemma GroupsStep(paths: seq<string>, key: string -> Option<string>, p: string, date: string,
                   grouped: map<string, seq<string>>)
    requires key(p) == Some(date)
    requires forall t :: t in grouped ==> grouped[t] == PathsOn(paths, key, t)
    requires date !in grouped ==> date !in KeptDates(paths, key)
    ensures var group := if date in grouped then grouped[date] else [];
            forall t :: t in grouped[date := group + [p]] ==>
              grouped[date := group + [p]][t] == PathsOn(paths + [p], key, t)
  {
    var group := if date in grouped then grouped[date] else [];
    var g := grouped[date := group + [p]];
    forall t | t in g
      ensures g[t] == PathsOn(paths + [p], key, t)
    {
      PathsOnStep(paths, key, p, t);
      if t == date && date !in grouped {
        NoPathsOnUnkeptDate(paths, key, date);
      }
    }
  }

  /** The loop's step for a path that has no key. */
  lemma SkippedStep(paths: seq<string>, key: string -> Option<string>, p: string,
                      dates: seq<string>, grouped: map<string, seq<string>>)
    requires key(p).None? && GroupedSoFar(paths, key, dates, grouped)
    ensures GroupedSoFar(paths + [p], key, dates, grouped)
  {
    KeptDatesStep(paths, key, p);
    forall t
      ensures PathsOn(paths + [p], key, t) == PathsOn(paths, key, t)
    {
      PathsOnStep(paths, key, p, t);
    }
  }

  /** A path is filed under its own key and under no other, and its key is listed. */
  lemma FiledUnderOneDate(paths: seq<string>, key: string -> Option<string>, p: string, t: string)
    requires p in paths
    ensures p in PathsOn(paths, key, t) <==> key(p) == Some(t)
    ensures key(p) == Some(t) ==> t in FirstSeen(KeptDates(paths, key))
  {
    PathsOnContents(paths, key, t);
    assert p in PathsOn(paths, key, t) <==> multiset(PathsOn(paths, key, t))[p] > 0;
    if key(p) == Some(t) {
      DateListed(paths, key, p, t);
    }
  }

  lemma DateListed(paths: seq<string>, key: string -> Option<string>, p: string, t: string)
    requires p in paths && key(p) == Some(t)
    ensures t in FirstSeen(KeptDates(paths, key))
  {
    KeptDatesContents(paths, key);
    assert t in Elems(KeptDates(paths, key));
  }

  /** The sizes of the groups listed in `dates`. */
  ghost function GroupSizes(paths: seq<string>, key: string -> Option<string>, dates: seq<string>): nat
  {
    if dates == [] then 0
    else GroupSizes(paths, key, dates[..|dates| - 1]) + |PathsOn(paths, key, dates[|dates| - 1])|
  }

  /** One more path adds one to the size of the group of its key, if that group is listed. */
  lemma {:induction false} GroupSizesStep(paths: seq<string>, key: string -> Option<string>, p: string, dates: seq<string>)
    requires Distinct(dates)
    ensures GroupSizes(paths + [p], key, dates) ==
              GroupSizes(paths, key, dates) + (if key(p).Some? && key(p).value in dates then 1 else 0)
  {
    if dates != [] {
      var init, t := dates[..|dates| - 1], dates[|dates| - 1];
      assert dates == init + [t];
      assert Distinct(init) && t !in init;
      GroupSizesStep(paths, key, p, init);
      PathsOnStep(paths, key, p, t);
    }
  }

  lemma NoPathsOnUnkeptDate(paths: seq<string>, key: string -> Option<string>, t: string)
    requires t !in KeptDates(paths, key)
    ensures PathsOn(paths, key, t) == []
  {
    PathsOnContents(paths, key, t);
    KeptDatesContents(paths, key);
    assert multiset(PathsOn(paths, key, t)) == multiset{};
  }

  /** The groups' sizes add up to the number of kept paths: nothing is lost or filed twice. */
  lemma {:induction false} GroupsPartitionKeptPaths(paths: seq<string>, key: string -> Option<string>)
    ensures GroupSizes(paths, key, FirstSeen(KeptDates(paths, key))) == |KeptPaths(paths, key)|
  {
    if paths != [] {
      var init, p := paths[..|paths| - 1], paths[|paths| - 1];
      assert paths == init + [p];
      GroupsPartitionKeptPaths(init, key);
      if key(p).None? {
        PartitionSkippedStep(init, key, p);
      } else if key(p).value in KeptDates(init, key) {
        PartitionOldDateStep(init, key, p);
      } else {
        PartitionNewDateStep(init, key, p);
      }
    }
  }

  lemma PartitionSkippedStep(paths: seq<string>, key: string -> Option<string>, p: string)
    requires key(p).None?
    requires GroupSizes(paths, key, FirstSeen(KeptDates(paths, key))) == |KeptPaths(paths, key)|
    ensures GroupSizes(paths + [p], key, FirstSeen(KeptDates(paths + [p], key))) == |KeptPaths(paths + [p], key)|
  {
    GroupSizesStep(paths, key, p, FirstSeen(KeptDates(paths, key)));
    KeptDatesStep(paths, key, p);
    KeptPathsStep(paths, key, p);
  }

  lemma PartitionOldDateStep(paths: seq<string>, key: string -> Option<string>, p: string)
    requires key(p).Some? && key(p).value in KeptDates(paths, key)
    requires GroupSizes(paths, key, FirstSeen(KeptDates(paths, key))) == |KeptPaths(paths, key)|
    ensures GroupSizes(paths + [p], key, FirstSeen(KeptDates(paths + [p], key))) == |KeptPaths(paths + [p], key)|
  {
    var t := key(p).value;
    var dates := FirstSeen(KeptDates(paths, key));
    KeptDatesStep(paths, key, p);
    KeptPathsStep(paths, key, p);
    FirstSeenStep(KeptDates(paths, key), t);
    assert t in Elems(KeptDates(paths, key));
    GroupSizesStep(paths, key, p, dates);
  }

  lemma PartitionNewDateStep(paths: seq<string>, key: string -> Option<string>, p: string)
    requires key(p).Some? && key(p).value !in KeptDates(paths, key)
    requires GroupSizes(paths, key, FirstSeen(KeptDates(paths, key))) == |KeptPaths(paths, key)|
    ensures GroupSizes(paths + [p], key, FirstSeen(KeptDates(paths + [p], key))) == |KeptPaths(paths + [p], key)|
  {
    var t := key(p).value;
    var dates := FirstSeen(KeptDates(paths, key));
    KeptDatesStep(paths, key, p);
    KeptPathsStep(paths, key, p);
    FirstSeenStep(KeptDates(paths, key), t);
    assert t !in Elems(KeptDates(paths, key));
    GroupSizesStep(paths, key, p, dates);
    assert (dates + [t])[..|dates|] == dates;
    PathsOnStep(paths, key, p, t);
    NoPathsOnUnkeptDate(paths, key, t);
  }

  // ---------------------------------------------------------------------
  // replace_suffix_and_extension
  // ---------------------------------------------------------------------

  /**
   * `os.path.splitext`: the stem and the extension, split at the last `.`
   * of the basename unless every character of the basename before it is a
   * `.` (a leading dot does not start an extension).
   */
  function Splitext(p: string): (r: (string, string))
    ensures r.0 + r.1 == p
    ensures r.1 == [] || (r.1[0] == '.' && '.' !in r.1[1..] && '/' !in r.1)
    ensures r.1 == [] <==> forall k :: RFind(p, '/') < k < RFind(p, '.') ==> p[k] == '.'
  {
    var sep := RFind(p, '/');
    var dot := RFind(p, '.');
    if sep < dot && exists k :: sep < k < dot && p[k] != '.' then
      ExtensionAfterSeparator(p, sep, dot);
      (p[..dot], p[dot..])
    else
      (p, [])
  }

  lemma ExtensionAfterSeparator(p: string, sep: int, dot: int)
    requires sep == RFind(p, '/') && dot == RFind(p, '.') && sep < dot
    ensures p[dot..][0] == '.' && '.' !in p[dot..][1..] && '/' !in p[dot..]
  {
    assert p[dot..][1..] == p[dot + 1..];
    assert forall j :: sep < j < |p| ==> p[j] == p[sep + 1..][j - sep - 1];
  }

  /** A name with a stem and a plain extension splits into those two. */
  lemma SplitextJoin(stem: string, extension: string)
    requires |stem| > 0 && stem[0] != '.' && '/' !in stem
    requires '.' !in extension && '/' !in extension
    ensures Splitext(stem + "." + extension) == (stem, "." + extension)
  {
    var p := stem + "." + extension;
    assert p == stem + ("." + extension);
    RFindConcat(stem, "." + extension, '/');
    RFindConcat(stem, "." + extension, '.');
    assert "." + extension == ['.'] + extension;
    RFindConcat(['.'], extension, '.');
    assert p[0] == stem[0];
    assert p[..|stem|] == stem;
  }

  /**
   * The base kept by `stem.rsplit("_", n)[0]`: a prefix of `stem` whose
   * remainder is empty or starts with `_` and holds the last min(n, count)
   * underscores of `stem`.
   */
  ghost predicate KeptBase(base: string, stem: string, n: nat)
  {
    && |base| <= |stem| && base == stem[..|base|]
    && (|base| < |stem| ==> stem[|base|] == '_')
    && Count('_', stem[|base|..]) == (if n <= Count('_', stem) then n else Count('_', stem))
  }

  /** At most one prefix is the kept base. */
  lemma KeptBaseUnique(b1: string, b2: string, stem: string, n: nat)
    requires KeptBase(b1, stem, n) && KeptBase(b2, stem, n)
    ensures b1 == b2
  {
    if |b1| < |b2| {
      TailCountDrops(stem, |b1|, |b2|);
    } else if |b2| < |b1| {
      TailCountDrops(stem, |b2|, |b1|);
    }
  }

  lemma TailCountDrops(s: string, i: nat, j: nat)
    requires i < j <= |s| && s[i] == '_'
    ensures Count('_', s[i..]) > Count('_', s[j..])
  {
    assert s[i..] == s[i..j] + s[j..];
    assert s[i..j][0] == '_';
  }

  /** The base kept before the last underscore, after one more split, is kept from the whole. */
  lemma KeptBaseStep(s: string, i: nat, r: string, n: nat)
    requires i < |s| && s[i] == '_' && '_' !in s[i + 1..]
    requires 0 < n && KeptBase(r, s[..i], n - 1)
    ensures KeptBase(r, s, n)
  {
    var init := s[..i];
    assert s == init + s[i..];
    assert s[i..] == ['_'] + s[i + 1..];
    assert Count('_', s[i..]) == 1;
    assert s[|r|..] == init[|r|..] + s[i..];
  }

  /** `s.rsplit("_", n)[0]`. */
  function RsplitHead(s: string, n: nat): (r: string)
    ensures KeptBase(r, s, n)
    decreases n
  {
    if n == 0 then s
    else
      var i := RFind(s, '_');
      if i < 0 then
        assert multiset(s)['_'] == 0;
        s
      else
        var r := RsplitHead(s[..i], n - 1);
        KeptBaseStep(s, i, r, n);
        r
  }

  /** A falsy optional argument: `None` or the empty string. */
  predicate Truthy(o: Option<string>)
  {
    o.Some? && o.value != ""
  }

  /** What follows the kept base: the new suffix, a dot, and the new or the old extension. */
  function NewTail(suffix: Option<string>, extension: Option<string>, oldExtension: string): string
  {
    (if Truthy(suffix) then "_" + suffix.value else "UNDEFINED")
    + "." + (if Truthy(extension) then extension.value else oldExtension)
  }

  /**
   * `replace_suffix_and_extension`: the stem before the extension loses its
   * last three `_`-separated tokens (fewer if it has fewer underscores),
   * then gets `_<suffix>` or `UNDEFINED`, a dot, and the new extension or,
   * when none is given, the old one with its dot.
   */
  function ReplaceSuffixAndExtension(filename: string, suffix: Option<string>, extension: Option<string>): (r: string)
    ensures var tail := NewTail(suffix, extension, Splitext(filename).1);
            && |tail| <= |r| && r[|r| - |tail|..] == tail
            && KeptBase(r[..|r| - |tail|], Splitext(filename).0, 3)
  {
    var (name, ext) := Splitext(filename);
    var base := RsplitHead(name, 3);
    var r := base + NewTail(suffix, extension, ext);
    assert r[..|base|] == base;
    r
  }

  /** Without an extension argument the old extension keeps its dot, so the result holds `..`. */
  lemma FalsyExtensionDoubleDot(filename: string, suffix: Option<string>, extension: Option<string>)
    requires !Truthy(extension) && Splitext(filename).1 != []
    ensures var r := ReplaceSuffixAndExtension(filename, suffix, extension);
            var k := |r| - |Splitext(filename).1|;
            1 <= k && r[k - 1..k + 1] == ".."
  {
    var (stem, ext) := Splitext(filename);
    ReplaceOfSplit(filename, stem, ext, suffix, extension);
    DoubleDotAfter(RsplitHead(stem, 3), suffix, extension, ext);
  }

  lemma DoubleDotAfter(base: string, suffix: Option<string>, extension: Option<string>, ext: string)
    requires !Truthy(extension) && ext != [] && ext[0] == '.'
    ensures var r := base + NewTail(suffix, extension, ext);
            var k := |r| - |ext|;
            1 <= k && r[k - 1..k + 1] == ".."
  {
    var tail := NewTail(suffix, extension, ext);
    var r := base + tail;
    var k := |r| - |ext|;
    assert tail == (if Truthy(suffix) then "_" + suffix.value else "UNDEFINED") + "." + ext;
    assert r[k - 1] == '.';
    assert r[k] == ext[0];
  }

  /** Without a suffix argument `UNDEFINED` follows the kept base with no underscore. */
  lemma FalsySuffixUndefined(filename: string, suffix: Option<string>, extension: Option<string>)
    requires !Truthy(suffix)
    ensures var r := ReplaceSuffixAndExtension(filename, suffix, extension);
            var base := RsplitHead(Splitext(filename).0, 3);
            |base| + 10 <= |r| && r[|base|..|base| + 10] == "UNDEFINED."
  {
    var (stem, ext) := Splitext(filename);
    ReplaceOfSplit(filename, stem, ext, suffix, extension);
    UndefinedAfter(RsplitHead(stem, 3), suffix, extension, ext);
  }

  lemma UndefinedAfter(base: string, suffix: Option<string>, extension: Option<string>, ext: string)
    requires !Truthy(suffix)
    ensures var r := base + NewTail(suffix, extension, ext);
            |base| + 10 <= |r| && r[|base|..|base| + 10] == "UNDEFINED."
  {
    var rest := if Truthy(extension) then extension.value else ext;
    assert NewTail(suffix, extension, ext) == "UNDEFINED." + rest;
    assert (base + ("UNDEFINED." + rest))[|base|..|base| + 10] == "UNDEFINED.";
  }

  // ---------------------------------------------------------------------
  // The three helpers in sequence, as the image pipeline uses them
  // ---------------------------------------------------------------------

  /** A path ending in a custom file name built from decoded fields is filed under its acquisition date. */
  lemma CustomFilenameGroupedByDate(directory: string, d: Details, suffix: string, extension: string)
    requires WellFormed(d, ReflectanceOrTemperature)
    requires '/' !in suffix && '/' !in extension
    ensures DateKey(directory + "/" + CreateCustomFilename(d, suffix, extension)) == Some(d.acquisitionDate)
  {
    var name := CreateCustomFilename(d, suffix, extension);
    NoSlashInCustomFilename(d, suffix, extension);
    BasenameAfterSlash(directory, name);
    assert SearchFrom(name, 0) == Some(0);
  }

  /**
   * A record of the other decoder's grammar with surface `QA` gives a custom
   * name that the grouping pattern (`ST|SR`) does not match anywhere.
   */
  lemma OtherSurfaceNotGrouped(directory: string, d: Details)
    requires d == Details("LC08", "L2SP", "123045", "20200115", "20200120", "02", "T1", "QA", "B4")
    ensures LandsatDataProcessor.DecodeSatelliteFilename(Render(d)) == Some(d)
    ensures DecodeSatelliteFilename(Render(d)) == None
    ensures DateKey(directory + "/" + CreateCustomFilename(d, "ndvi", "png")) == None
  {
    QaWellFormed(d);
    OtherSurfaceRejected(d);
    var name := CreateCustomFilename(d, "ndvi", "png");
    QaCustomName(d);
    NoGroupingMatch(name);
    UngroupedName(directory, name);
  }

  lemma QaWellFormed(d: Details)
    requires d == Details("LC08", "L2SP", "123045", "20200115", "20200120", "02", "T1", "QA", "B4")
    ensures WellFormed(d, AnyUpperPair) && d.surface != "ST" && d.surface != "SR"
  {
  }

  lemma QaCustomName(d: Details)
    requires d == Details("LC08", "L2SP", "123045", "20200115", "20200120", "02", "T1", "QA", "B4")
    ensures CreateCustomFilename(d, "ndvi", "png") == "20200115_123045_QA_B4_ndvi.png"
  {
  }

  /** A path whose base name matches nowhere has no date key. */
  lemma UngroupedName(directory: string, name: string)
    requires '/' !in name && forall i :: !MatchAt(name, i)
    ensures DateKey(directory + "/" + name) == None
  {
    BasenameAfterSlash(directory, name);
    DateKeyNone(directory + "/" + name);
  }

  lemma NoGroupingMatch(name: string)
    requires name == "20200115_123045_QA_B4_ndvi.png"
    ensures forall i :: !MatchAt(name, i)
  {
    forall i: nat | i + 20 <= |name|
      ensures !MatchAt(name, i)
    {
      assert name[i + 16] != 'S';
    }
  }

  /** The base name of `directory/name` is `name` when `name` has no `/`. */
  lemma BasenameAfterSlash(directory: string, name: string)
    requires '/' !in name
    ensures Basename(directory + "/" + name) == name
  {
    var path := directory + "/" + name;
    assert path == (directory + "/") + name;
    RFindConcat(directory + "/", name, '/');
    RFindConcat(directory, "/", '/');
  }

  /** A single path with a key is grouped alone under that key. */
  lemma SinglePathGrouped(p: string, key: string -> Option<string>, t: string)
    requires key(p) == Some(t)
    ensures FirstSeen(KeptDates([p], key)) == [t]
    ensures PathsOn([p], key, t) == [p]
  {
    KeptDatesStep([], key, p);
    PathsOnStep([], key, p, t);
    assert [] + [p] == [p];
    FirstSeenStep([], t);
  }

  lemma NoSlashInCustomFilename(d: Details, suffix: string, extension: string)
    requires WellFormed(d, ReflectanceOrTemperature)
    requires '/' !in suffix && '/' !in extension
    ensures '/' !in CreateCustomFilename(d, suffix, extension)
  {
    assert '/' !in d.acquisitionDate && '/' !in d.wrs && '/' !in d.band;
  }

  /** `rsplit` past a last token without underscores. */
  lemma RsplitHeadSkip(a: string, b: string, n: nat)
    requires '_' !in b
    ensures RsplitHead(a + "_" + b, n + 1) == RsplitHead(a, n)
  {
    var s := a + "_" + b;
    assert s == a + (['_'] + b);
    RFindConcat(a, ['_'] + b, '_');
    RFindConcat(['_'], b, '_');
    assert s[..|a|] == a;
  }

  lemma AppendTail(base: string, suffix: string, extension: string)
    ensures base + ("_" + suffix + "." + extension) == base + "_" + suffix + "." + extension
  {
  }

  /** `replace_suffix_and_extension` spelled out on a name whose split is known. */
  lemma ReplaceOfSplit(filename: string, stem: string, ext: string, suffix: Option<string>, extension: Option<string>)
    requires Splitext(filename) == (stem, ext)
    ensures ReplaceSuffixAndExtension(filename, suffix, extension) == RsplitHead(stem, 3) + NewTail(suffix, extension, ext)
  {
  }

  /**
   * Renaming a custom file name whose band and suffix have no underscore
   * keeps only its date and WRS: the three dropped tokens are the surface,
   * the band and the suffix.
   */
  lemma CustomFilenameRenamed(d: Details, suffix: string, extension: string, newSuffix: string, newExtension: string)
    requires WellFormed(d, ReflectanceOrTemperature) && '_' !in d.band
    requires '_' !in suffix && '/' !in suffix && '.' !in extension && '/' !in extension
    requires newSuffix != "" && newExtension != ""
    ensures ReplaceSuffixAndExtension(CreateCustomFilename(d, suffix, extension), Some(newSuffix), Some(newExtension))
            == d.acquisitionDate + "_" + d.wrs + "_" + newSuffix + "." + newExtension
  {
    var dateWrs := d.acquisitionDate + "_" + d.wrs;
    var stem := dateWrs + "_" + d.surface + "_" + d.band + "_" + suffix;
    var name := CreateCustomFilename(d, suffix, extension);
    CustomFilenameSplit(d, suffix, extension);
    ReplaceOfSplit(name, stem, "." + extension, Some(newSuffix), Some(newExtension));
    SurfaceHasNoUnderscore(d);
    CustomStemBase(dateWrs, d.surface, d.band, suffix);
    RenamedTail(dateWrs, newSuffix, newExtension, "." + extension);
  }

  lemma SurfaceHasNoUnderscore(d: Details)
    requires WellFormed(d, ReflectanceOrTemperature)
    ensures '_' !in d.surface
  {
    assert d.surface == [d.surface[0], d.surface[1]];
  }

  /** With both arguments given, the kept base gets `_<suffix>.<extension>`. */
  lemma RenamedTail(base: string, newSuffix: string, newExtension: string, ext: string)
    requires newSuffix != "" && newExtension != ""
    ensures base + NewTail(Some(newSuffix), Some(newExtension), ext) == base + "_" + newSuffix + "." + newExtension
  {
    assert NewTail(Some(newSuffix), Some(newExtension), ext) == "_" + newSuffix + "." + newExtension;
    AppendTail(base, newSuffix, newExtension);
  }

  /** A custom file name splits at the dot that `create_custom_filename` put before the extension. */
  lemma CustomFilenameSplit(d: Details, suffix: string, extension: string)
    requires WellFormed(d, ReflectanceOrTemperature)
    requires '/' !in suffix && '.' !in extension && '/' !in extension
    ensures Splitext(CreateCustomFilename(d, suffix, extension)) ==
              (d.acquisitionDate + "_" + d.wrs + "_" + d.surface + "_" + d.band + "_" + suffix, "." + extension)
  {
    var stem := d.acquisitionDate + "_" + d.wrs + "_" + d.surface + "_" + d.band + "_" + suffix;
    var name := CreateCustomFilename(d, suffix, extension);
    assert name == stem + "." + extension;
    NoSlashInCustomFilename(d, suffix, extension);
    assert '/' !in stem by {
      assert forall i :: 0 <= i < |stem| ==> stem[i] == name[i];
    }
    assert stem[0] == d.acquisitionDate[0];
    SplitextJoin(stem, extension);
  }

  /** Splitting off three tokens without underscores leaves what came before them. */
  lemma CustomStemBase(head: string, surface: string, band: string, suffix: string)
    requires '_' !in surface && '_' !in band && '_' !in suffix
    ensures RsplitHead(head + "_" + surface + "_" + band + "_" + suffix, 3) == head
  {
    RsplitHeadSkip(head + "_" + surface + "_" + band, suffix, 2);
    RsplitHeadSkip(head + "_" + surface, band, 1);
    RsplitHeadSkip(head, surface, 0);
  }
}
