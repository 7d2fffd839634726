/** The pairing loop of `unified_day_image` in app/reports/sic_report.py:
    the i-th VIRS file of the listing is matched against the i-th MODIS
    file, and the pair is kept, histogram-matched with VIRS as source and
    MODIS as template, when their dates are at most `interval` minutes
    apart. Loading a file's sea-ice band and the C library's `mktime` are
    parameters; the plotting after the loop is not modelled. */
module SicReport {
  import opened Common
  import opened NdArrays
  import opened Analysis
  import opened Data
  import Images2D

  /** What ends the loop early: a file name without a date, a VIRS file
      without a MODIS file at the same position (IndexError), a failed
      histogram match; and the exit when nothing was processed. */
  datatype PairError =
    | BadDate(dateError: DateError)
    | MissingModis(index: nat)
    | HistMatchFailed(matchError: MatchError)
    | NoPicturesProcessed

  /** The two lists the loop fills. */
  datatype Pairing = Pairing(processed: seq<Array<real>>, titles: seq<string>)

  /** `"{0} and {1}".format(source.title, template.title)`. */
  function PairTitle(vir: string, modis: string): string
  {
    Images2D.Title(vir) + " and " + Images2D.Title(modis)
  }

  /** Both names carry a date and the dates are at most `interval` minutes
      apart (the test includes its bound). */
  predicate Close(date: string -> Result<TimeStruct, DateError>, vir: string, modis: string,
                  mktime: CalendarTime -> real, interval: real)
  {
    date(vir).Success? && date(modis).Success? &&
    DateDiff(date(vir).value, date(modis).value, mktime) <= interval
  }

  /** One turn of the loop at position i, in the source's order: parse the
      VIRS date, index the MODIS list, parse the MODIS date, compare, and
      match the two images (with `hist_match` in the program) when the pair
      is close. `None` is a pair left out. */
  function PairAt(date: string -> Result<TimeStruct, DateError>, virs: seq<string>, modis: seq<string>, i: nat, load: string -> Array<real>, matcher: Matcher,
                  mktime: CalendarTime -> real, interval: real): (r: Result<Option<(Array<real>, string)>, PairError>)
    requires i < |virs|
    ensures r.Success? <==>
      i < |modis| && date(virs[i]).Success? && date(modis[i]).Success? &&
      (Close(date, virs[i], modis[i], mktime, interval) ==> matcher(load(virs[i]), load(modis[i])).Success?)
    ensures r.Success? ==> (r.value.Some? <==> Close(date, virs[i], modis[i], mktime, interval))
    ensures r.Success? && r.value.Some? ==>
      matcher(load(virs[i]), load(modis[i])) == Success(r.value.value.0) &&
      r.value.value.1 == PairTitle(virs[i], modis[i])
  {
    match date(virs[i])
    case Failure(e) => Failure(BadDate(e))
    case Success(virsDate) =>
      if i >= |modis| then Failure(MissingModis(i))
      else
        match date(modis[i])
        case Failure(e) => Failure(BadDate(e))
        case Success(modisDate) =>
          if DateDiff(virsDate, modisDate, mktime) <= interval then
            match matcher(load(virs[i]), load(modis[i]))
            case Failure(e) => Failure(HistMatchFailed(e))
            case Success(out) => Success(Some((out, PairTitle(virs[i], modis[i]))))
          else Success(None)
  }

  /** The two lists after the first n turns. */
  function Pairs(date: string -> Result<TimeStruct, DateError>, virs: seq<string>, modis: seq<string>, n: nat, load: string -> Array<real>, matcher: Matcher,
                 mktime: CalendarTime -> real, interval: real): (r: Result<Pairing, PairError>)
    requires n <= |virs|
    ensures r.Success? ==> |r.value.processed| == |r.value.titles| <= n
    ensures r.Success? ==> n <= |modis|
  {
    if n == 0 then Success(Pairing([], []))
    else
      match Pairs(date, virs, modis, n - 1, load, matcher, mktime, interval)
      case Failure(e) => Failure(e)
      case Success(p) =>
        match PairAt(date, virs, modis, n - 1, load, matcher, mktime, interval)
        case Failure(e) => Failure(e)
        case Success(None) => Success(p)
        case Success(Some((out, title))) => Success(Pairing(p.processed + [out], p.titles + [title]))
  }

  /** The positions below n whose pair is close, in ascending order. */
  function Selected(date: string -> Result<TimeStruct, DateError>, virs: seq<string>, modis: seq<string>, n: nat,
                    mktime: CalendarTime -> real, interval: real): (s: seq<nat>)
    requires n <= |virs| && n <= |modis|
    ensures forall i: nat :: i in s <==> i < n && Close(date, virs[i], modis[i], mktime, interval)
    ensures forall j :: 0 <= j < |s| ==> s[j] < n
    ensures forall j, k :: 0 <= j < k < |s| ==> s[j] < s[k]
  {
    if n == 0 then []
    else
      var prev := Selected(date, virs, modis, n - 1, mktime, interval);
      prev + (if Close(date, virs[n - 1], modis[n - 1], mktime, interval) then [n - 1] else [])
  }

  /** The VIRS and MODIS lists of the listing `files`: `file_names` with the
      ids of "vir" and "mod". */
  function Virs(files: seq<string>): (r: seq<string>)
    ensures Sorted(r) && forall f :: multiset(r)[f] == if Contains(f, "VIR") then multiset(files)[f] else 0
  {
    FileNamesInstrument(InstrumentMap["vir"], files);
    FileNames(Some(InstrumentMap["vir"]), files).value
  }

  function Modis(files: seq<string>): (r: seq<string>)
    ensures Sorted(r) && forall f :: multiset(r)[f] == if Contains(f, "MOD") then multiset(files)[f] else 0
  {
    FileNamesInstrument(InstrumentMap["mod"], files);
    FileNames(Some(InstrumentMap["mod"]), files).value
  }

  /** What the loop and the check after it leave: the two lists, or the
      error that ended the run. */
  function UnifiedDayImageSpec(files: seq<string>, load: string -> Array<real>,
                               mktime: CalendarTime -> real, interval: real): Result<Pairing, PairError>
  {
    var virs := Virs(files);
    match Pairs(ParseDate, virs, Modis(files), |virs|, load, HistMatch, mktime, interval)
    case Failure(e) => Failure(e)
    case Success(p) => if |p.processed| == 0 then Failure(NoPicturesProcessed) else Success(p)
  }

  /** `unified_day_image(lense, interval)` up to the plotting: the pairing
      loop over the two listings and the exit when nothing was kept. */
  method UnifiedDayImage(files: seq<string>, load: string -> Array<real>,
                         mktime: CalendarTime -> real, interval: real) returns (r: Result<Pairing, PairError>)
    ensures r == UnifiedDayImageSpec(files, load, mktime, interval)
  {
    var virsFiles := Virs(files);
    var modisFiles := Modis(files);
    var pairs := PairFiles(ParseDate, virsFiles, modisFiles, load, HistMatch, mktime, interval);
    if pairs.Failure? {
      return Failure(pairs.error);
    }
    if |pairs.value.processed| == 0 {
      return Failure(NoPicturesProcessed);
    }
    return pairs;
  }

  /** The loop of `unified_day_image` over the VIRS files, with the index
      guard of the source, which never fires; `date` is `parse_date` and
      `matcher` is `hist_match`. */
  method PairFiles(date: string -> Result<TimeStruct, DateError>, virsFiles: seq<string>, modisFiles: seq<string>,
                   load: string -> Array<real>, matcher: Matcher, mktime: CalendarTime -> real, interval: real)
    returns (r: Result<Pairing, PairError>)
    ensures r == Pairs(date, virsFiles, modisFiles, |virsFiles|, load, matcher, mktime, interval)
  {
    var processed: seq<Array<real>> := [];
    var titles: seq<string> := [];
    for idx := 0 to |virsFiles|
      invariant Pairs(date, virsFiles, modisFiles, idx, load, matcher, mktime, interval) == Success(Pairing(processed, titles))
    {
      if idx >= |virsFiles| {
        break;
      }
      var vir := virsFiles[idx];
      var virsDate := date(vir);
      if virsDate.Failure? {
        r := Failure(BadDate(virsDate.error));
        PairsFailed(date, virsFiles, modisFiles, idx + 1, |virsFiles|, load, matcher, mktime, interval);
        return;
      }
      if idx >= |modisFiles| {
        r := Failure(MissingModis(idx));
        PairsFailed(date, virsFiles, modisFiles, idx + 1, |virsFiles|, load, matcher, mktime, interval);
        return;
      }
      var modisDate := date(modisFiles[idx]);
      if modisDate.Failure? {
        r := Failure(BadDate(modisDate.error));
        PairsFailed(date, virsFiles, modisFiles, idx + 1, |virsFiles|, load, matcher, mktime, interval);
        return;
      }
      if DateDiff(virsDate.value, modisDate.value, mktime) <= interval {
        var source := virsFiles[idx];
        var template := modisFiles[idx];
        var out := matcher(load(source), load(template));
        if out.Failure? {
          r := Failure(HistMatchFailed(out.error));
          PairsFailed(date, virsFiles, modisFiles, idx + 1, |virsFiles|, load, matcher, mktime, interval);
          return;
        }
        processed := processed + [out.value];
        titles := titles + [PairTitle(source, template)];
      }
    }
    return Success(Pairing(processed, titles));
  }

  /** Once a turn fails, the run ends with that failure. */
  lemma {:induction false} PairsFailed(date: string -> Result<TimeStruct, DateError>, virs: seq<string>, modis: seq<string>, k: nat, n: nat,
                                       load: string -> Array<real>, matcher: Matcher, mktime: CalendarTime -> real, interval: real)
    requires k <= n <= |virs| && Pairs(date, virs, modis, k, load, matcher, mktime, interval).Failure?
    ensures Pairs(date, virs, modis, n, load, matcher, mktime, interval) == Pairs(date, virs, modis, k, load, matcher, mktime, interval)
    decreases n - k
  {
    if k < n {
      PairsFailed(date, virs, modis, k, n - 1, load, matcher, mktime, interval);
    }
  }

  /** A successful run visits every position: the i-th VIRS file is paired
      with the i-th MODIS file only; the kept pairs are exactly the close
      ones, in ascending order; each result is the histogram match of the
      VIRS image onto the MODIS image, and its title names the two files. */
  lemma {:induction false} PairsContents(date: string -> Result<TimeStruct, DateError>, virs: seq<string>, modis: seq<string>, n: nat,
                                         load: string -> Array<real>, matcher: Matcher, mktime: CalendarTime -> real, interval: real)
    requires n <= |virs| && Pairs(date, virs, modis, n, load, matcher, mktime, interval).Success?
    ensures n <= |modis|
    ensures forall i :: 0 <= i < n ==> date(virs[i]).Success? && date(modis[i]).Success?
    ensures var p := Pairs(date, virs, modis, n, load, matcher, mktime, interval).value;
      var s := Selected(date, virs, modis, n, mktime, interval);
      |p.processed| == |s| &&
      forall j :: 0 <= j < |s| ==>
        matcher(load(virs[s[j]]), load(modis[s[j]])) == Success(p.processed[j]) &&
        p.titles[j] == PairTitle(virs[s[j]], modis[s[j]])
  {
    if n > 0 {
      PairsContents(date, virs, modis, n - 1, load, matcher, mktime, interval);
      var prev := Pairs(date, virs, modis, n - 1, load, matcher, mktime, interval).value;
      var s' := Selected(date, virs, modis, n - 1, mktime, interval);
      var s := Selected(date, virs, modis, n, mktime, interval);
      var p := Pairs(date, virs, modis, n, load, matcher, mktime, interval).value;
      match PairAt(date, virs, modis, n - 1, load, matcher, mktime, interval).value
      case None =>
        assert s == s' && p == prev;
      case Some((out, title)) =>
        assert s == s' + [n - 1];
        assert p == Pairing(prev.processed + [out], prev.titles + [title]);
    }
  }

  /** A run succeeds exactly when each of its turns does. */
  lemma {:induction false} PairsSucceed(date: string -> Result<TimeStruct, DateError>, virs: seq<string>, modis: seq<string>, n: nat,
                                        load: string -> Array<real>, matcher: Matcher, mktime: CalendarTime -> real, interval: real)
    requires n <= |virs|
    ensures Pairs(date, virs, modis, n, load, matcher, mktime, interval).Success? <==>
      forall i :: 0 <= i < n ==> PairAt(date, virs, modis, i, load, matcher, mktime, interval).Success?
  {
    if n > 0 {
      PairsSucceed(date, virs, modis, n - 1, load, matcher, mktime, interval);
    }
  }

  /** A sequence with no members is empty. */
  lemma NoMembers(s: seq<nat>)
    ensures (forall i: nat :: i !in s) ==> s == []
  {
    if s != [] {
      assert s[0] in s;
    }
  }

  /** Fewer MODIS than VIRS files always ends the run with an error. */
  lemma MissingModisFails(files: seq<string>, load: string -> Array<real>, mktime: CalendarTime -> real, interval: real)
    requires |Modis(files)| < |Virs(files)|
    ensures UnifiedDayImageSpec(files, load, mktime, interval).Failure?
  {
  }

  /** Without any close pair the run ends with the "No pictures were
      processed" exit, unless an error ends it first. */
  lemma NoClosePairs(files: seq<string>, load: string -> Array<real>, mktime: CalendarTime -> real, interval: real)
    requires |Virs(files)| <= |Modis(files)|
    requires forall i :: 0 <= i < |Virs(files)| ==> !Close(ParseDate, Virs(files)[i], Modis(files)[i], mktime, interval)
    ensures UnifiedDayImageSpec(files, load, mktime, interval).Failure?
    ensures Pairs(ParseDate, Virs(files), Modis(files), |Virs(files)|, load, HistMatch, mktime, interval).Success? ==>
      UnifiedDayImageSpec(files, load, mktime, interval) == Failure(NoPicturesProcessed)
  {
    var virs, modis := Virs(files), Modis(files);
    var s := Selected(ParseDate, virs, modis, |virs|, mktime, interval);
    NoMembers(s);
    if Pairs(ParseDate, virs, modis, |virs|, load, HistMatch, mktime, interval).Success? {
      PairsContents(ParseDate, virs, modis, |virs|, load, HistMatch, mktime, interval);
    }
  }

  /** A negative interval keeps no pair, since date differences are never
      negative. */
  lemma NegativeInterval(date: string -> Result<TimeStruct, DateError>, vir: string, modis: string, mktime: CalendarTime -> real, interval: real)
    requires interval < 0.0
    ensures !Close(date, vir, modis, mktime, interval)
  {
    if date(vir).Success? && date(modis).Success? {
      DateDiffMetric(date(vir).value, date(modis).value, mktime);
    }
  }

  /** A successful run returns a title for every processed image. */
  lemma UnifiedLengths(files: seq<string>, load: string -> Array<real>, mktime: CalendarTime -> real, interval: real)
    requires UnifiedDayImageSpec(files, load, mktime, interval).Success?
    ensures var p := UnifiedDayImageSpec(files, load, mktime, interval).value;
      |p.processed| == |p.titles| > 0
  {
  }
}
