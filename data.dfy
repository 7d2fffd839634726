/** The file-name helpers of tools/data.py: the instrument tables, the
    sorted (optionally filtered) directory listing, the date encoded in a
    file name, and the difference of two dates in minutes. */
module Data {
  import opened Common

  /** `INSTRUMENT`: instrument id to the code that appears in file names. */
  const Instrument: map<int, string> := map[0 := "VIR", 1 := "MOD", 2 := "both"]

  /** `INSTRUMENT_MAP`: command-line instrument name to instrument id. */
  const InstrumentMap: map<string, int> := map["vir" := 0, "mod" := 1, "both" := 2]

  /** Every name maps to an id, and that id's code is the name in upper
      case for the two instruments ("both" stays as it is). */
  function InstrumentCode(name: string): (r: Option<string>)
    ensures r.Some? <==> name in {"vir", "mod", "both"}
    ensures name == "vir" ==> r == Some("VIR")
    ensures name == "mod" ==> r == Some("MOD")
    ensures name == "both" ==> r == Some("both")
  {
    if name in InstrumentMap && InstrumentMap[name] in Instrument then Some(Instrument[InstrumentMap[name]])
    else None
  }

  // ---------------------------------------------------------------------
  // Python's ordering of strings and `sorted`

  /** Python's `a <= b` on strings: lexicographic by character code. */
  predicate LexLe(a: string, b: string)
    decreases |a|
  {
    if a == [] then true
    else if b == [] then false
    else if a[0] != b[0] then a[0] < b[0]
    else LexLe(a[1..], b[1..])
  }

  lemma {:induction false} LexLeRefl(a: string)
    ensures LexLe(a, a)
    decreases |a|
  {
    if a != [] { LexLeRefl(a[1..]); }
  }

  lemma {:induction false} LexLeTotal(a: string, b: string)
    ensures LexLe(a, b) || LexLe(b, a)
    decreases |a|
  {
    if a != [] && b != [] && a[0] == b[0] { LexLeTotal(a[1..], b[1..]); }
  }

  lemma {:induction false} LexLeAntisymmetric(a: string, b: string)
    requires LexLe(a, b) && LexLe(b, a)
    ensures a == b
    decreases |a|
  {
    if a != [] && b != [] {
      LexLeAntisymmetric(a[1..], b[1..]);
      assert a == [a[0]] + a[1..] && b == [b[0]] + b[1..];
    }
  }

  lemma {:induction false} LexLeTransitive(a: string, b: string, c: string)
    requires LexLe(a, b) && LexLe(b, c)
    ensures LexLe(a, c)
    decreases |a|
  {
    if a != [] && b != [] && c != [] && a[0] == b[0] && b[0] == c[0] {
      LexLeTransitive(a[1..], b[1..], c[1..]);
    }
  }

  ghost predicate Sorted(s: seq<string>)
  {
    forall i, j :: 0 <= i < j < |s| ==> LexLe(s[i], s[j])
  }

  /** Inserts x before the first element it does not exceed. */
  function Insert(x: string, s: seq<string>): (r: seq<string>)
    requires Sorted(s)
    ensures Sorted(r)
    ensures multiset(r) == multiset(s) + multiset{x}
  {
    if s == [] then [x]
    else if LexLe(x, s[0]) then
      assert forall j :: 0 <= j < |s| ==> LexLe(x, s[j]) by {
        forall j | 0 <= j < |s| ensures LexLe(x, s[j]) {
          if j > 0 { LexLeTransitive(x, s[0], s[j]); }
        }
      }
      [x] + s
    else
      var t := Insert(x, s[1..]);
      assert s == [s[0]] + s[1..];
      assert forall j :: 0 <= j < |t| ==> LexLe(s[0], t[j]) by {
        forall j | 0 <= j < |t| ensures LexLe(s[0], t[j]) {
          assert t[j] in multiset(t);
          if t[j] == x {
            LexLeTotal(x, s[0]);
          } else {
            assert t[j] in multiset(s[1..]);
            var k :| 0 <= k < |s[1..]| && s[1..][k] == t[j];
            assert s[k + 1] == t[j];
          }
        }
      }
      [s[0]] + t
  }

  /** `sorted(s)`: the ascending arrangement of the same names. */
  function Sort(s: seq<string>): (r: seq<string>)
    ensures Sorted(r)
    ensures multiset(r) == multiset(s)
  {
    if s == [] then []
    else
      assert s == s[..|s| - 1] + [s[|s| - 1]];
      Insert(s[|s| - 1], Sort(s[..|s| - 1]))
  }

  /** There is only one ascending arrangement of a multiset of names, so
      `Sort` gives what any correct sort (Python's included) gives. */
  lemma {:induction false} SortedUnique(a: seq<string>, b: seq<string>)
    requires Sorted(a) && Sorted(b) && multiset(a) == multiset(b)
    ensures a == b
  {
    assert |a| == |multiset(a)| == |b|;
    if a != [] {
      SortedHeadLeast(a, b[0]);
      SortedHeadLeast(b, a[0]);
      LexLeAntisymmetric(a[0], b[0]);
      TailMultiset(a, b);
      SortedUnique(a[1..], b[1..]);
      assert a == [a[0]] + a[1..] && b == [b[0]] + b[1..];
    }
  }

  lemma TailMultiset(a: seq<string>, b: seq<string>)
    requires a != [] && b != [] && a[0] == b[0] && multiset(a) == multiset(b)
    ensures multiset(a[1..]) == multiset(b[1..])
  {
    assert a == [a[0]] + a[1..] && b == [b[0]] + b[1..];
    assert multiset(a[1..]) == multiset(a) - multiset{a[0]};
    assert multiset(b[1..]) == multiset(b) - multiset{b[0]};
  }

  /** The first of a sorted list of names is at most each of them. */
  lemma SortedHeadLeast(a: seq<string>, x: string)
    requires Sorted(a) && x in multiset(a)
    ensures LexLe(a[0], x)
  {
    var i :| 0 <= i < |a| && a[i] == x;
    if i == 0 { LexLeRefl(x); }
  }

  // ---------------------------------------------------------------------
  // file_names

  /** `[f for f in files if code in f]`. */
  function Filter(files: seq<string>, code: string): (r: seq<string>)
    ensures forall f :: multiset(r)[f] == if Contains(f, code) then multiset(files)[f] else 0
  {
    if files == [] then []
    else
      assert files == [files[0]] + files[1..];
      (if Contains(files[0], code) then [files[0]] else []) + Filter(files[1..], code)
  }

  /** `file_names` raises KeyError when the id is not in `INSTRUMENT` (no
      id at all included), once there is a file to test. */
  datatype DataError = UnknownInstrument(id: Option<int>)

  /** `file_names(instrument_id)` for the directory listing `files`. */
  function FileNames(id: Option<int>, files: seq<string>): (r: Result<seq<string>, DataError>)
    ensures r.Failure? <==> id != Some(2) && |files| > 0 && (id.None? || id.value !in Instrument)
    ensures r.Success? ==> Sorted(r.value) && multiset(r.value) <= multiset(files)
  {
    if id == Some(2) then Success(Sort(files))
    else if files == [] then Success([])
    else if id.None? || id.value !in Instrument then Failure(UnknownInstrument(id))
    else
      var r := Sort(Filter(files, Instrument[id.value]));
      assert multiset(r) <= multiset(files) by {
        forall f ensures multiset(r)[f] <= multiset(files)[f] { }
      }
      Success(r)
  }

  /** With id 2 every listed name comes back, in ascending order. */
  lemma FileNamesBoth(files: seq<string>)
    ensures FileNames(Some(2), files).Success?
    ensures Sorted(FileNames(Some(2), files).value)
    ensures multiset(FileNames(Some(2), files).value) == multiset(files)
  {
  }

  /** With id 0 or 1 exactly the names holding "VIR" or "MOD" come back,
      each as often as it is listed, in ascending order. */
  lemma FileNamesInstrument(id: int, files: seq<string>)
    requires id == 0 || id == 1
    ensures FileNames(Some(id), files).Success?
    ensures var r := FileNames(Some(id), files).value;
      var code := if id == 0 then "VIR" else "MOD";
      Sorted(r) && forall f :: multiset(r)[f] == if Contains(f, code) then multiset(files)[f] else 0
  {
    if files == [] {
    }
  }

  // ---------------------------------------------------------------------
  // str.split and int()

  /** Python's `s.split(sep)` with a one-character separator: the pieces
      between separators, empty ones included. */
  function Split(s: string, sep: char): (r: seq<string>)
    ensures |r| >= 1
    ensures forall k :: 0 <= k < |r| ==> sep !in r[k]
    ensures Join(r, sep) == s
  {
    if s == [] then [""]
    else
      var rest := Split(s[1..], sep);
      if s[0] == sep then
        assert [sep] + Join(rest, sep) == s;
        [""] + rest
      else
        var r := [[s[0]] + rest[0]] + rest[1..];
        assert r[1..] == rest[1..];
        assert forall k :: 1 <= k < |r| ==> r[k] == rest[k];
        r
  }

  /** `sep.join(parts)`. */
  function Join(parts: seq<string>, sep: char): string
  {
    if parts == [] then ""
    else if |parts| == 1 then parts[0]
    else parts[0] + [sep] + Join(parts[1..], sep)
  }

  /** Joining pieces free of the separator and splitting again gives the
      pieces back. */
  lemma {:induction false} SplitJoin(parts: seq<string>, sep: char)
    requires |parts| >= 1 && forall k :: 0 <= k < |parts| ==> sep !in parts[k]
    ensures Split(Join(parts, sep), sep) == parts
    decreases |parts|, |parts[0]|
  {
    var p := parts[0];
    var j := Join(parts, sep);
    if p == [] {
      if |parts| > 1 {
        JoinEmptyHead(parts, sep);
        SplitJoin(parts[1..], sep);
        assert j[1..] == Join(parts[1..], sep);
        assert parts == [""] + parts[1..];
      }
    } else {
      var parts' := [p[1..]] + parts[1..];
      assert sep !in p[1..] by { assert forall c :: c in p[1..] ==> c in p; }
      JoinHead(parts, sep);
      SplitJoin(parts', sep);
      assert j[1..] == Join(parts', sep);
      assert p[0] != sep by { assert p[0] in p; }
      assert [p[0]] + parts'[0] == p;
      assert parts'[1..] == parts[1..];
      assert parts == [p] + parts[1..];
    }
  }

  lemma JoinEmptyHead(parts: seq<string>, sep: char)
    requires |parts| > 1 && parts[0] == []
    ensures Join(parts, sep) == [sep] + Join(parts[1..], sep)
  {
  }

  lemma JoinHead(parts: seq<string>, sep: char)
    requires |parts| >= 1 && |parts[0]| > 0
    ensures Join(parts, sep) == [parts[0][0]] + Join([parts[0][1..]] + parts[1..], sep)
  {
    var p := parts[0];
    var parts' := [p[1..]] + parts[1..];
    assert parts'[1..] == parts[1..];
    if |parts| > 1 {
      assert Join(parts, sep) == p + [sep] + Join(parts[1..], sep);
      assert Join(parts', sep) == p[1..] + [sep] + Join(parts[1..], sep);
      assert p == [p[0]] + p[1..];
    } else {
      assert p == [p[0]] + p[1..];
    }
  }

  predicate IsDigit(c: char)
  {
    '0' <= c <= '9'
  }

  predicate AllDigits(s: string)
  {
    forall i :: 0 <= i < |s| ==> IsDigit(s[i])
  }

  /** The number the digits s[lo..hi] denote. */
  function ValueIn(s: string, lo: nat, hi: nat): nat
    requires lo <= hi <= |s|
    decreases hi - lo
  {
    if hi == lo then 0 else ValueIn(s, lo, hi - 1) * 10 + (s[hi - 1] as int - '0' as int) % 10
  }

  /** The number a string of decimal digits denotes. */
  function DigitsValue(s: string): nat
  {
    ValueIn(s, 0, |s|)
  }

  /** Python 2's `int(s)` on a byte string in base 10: surrounding white
      space, an optional sign, and at least one ASCII digit. */
  function ParseInt(s: string): (r: Option<int>)
    ensures r.Some? ==> Strip(s) != [] && IsDigit(Strip(s)[|Strip(s)| - 1])
    ensures r.Some? && r.value < 0 ==> Strip(s)[0] == '-'
  {
    var t := Strip(s);
    if t != [] && (t[0] == '-' || t[0] == '+') then
      var u := StripLeft(t[1..]);
      assert u != [] ==> u[|u| - 1] == t[|t| - 1];
      ParseStripped(t)
    else ParseStripped(t)
  }

  /** `int()` once the white space is stripped. Python 2 reads the sign and
      then skips white space again before the digits, so `int("- 1")` is -1. */
  function ParseStripped(t: string): Option<int>
  {
    if t == [] then None
    else if t[0] == '-' || t[0] == '+' then
      var u := StripLeft(t[1..]);
      if u == [] || !AllDigits(u) then None
      else if t[0] == '-' then Some(0 - DigitsValue(u) as int)
      else Some(DigitsValue(u))
    else if AllDigits(t) then Some(DigitsValue(t))
    else None
  }

  /** The decimal digits of n, without leading zeros. */
  function ShowNat(n: nat): (r: string)
    ensures |r| > 0 && AllDigits(r)
  {
    if n < 10 then [('0' as int + n) as char]
    else ShowNat(n / 10) + [('0' as int + n % 10) as char]
  }

  /** Digits after the ones read do not change the value read. */
  lemma {:induction false} ValuePrefix(a: string, b: string, lo: nat, hi: nat)
    requires lo <= hi <= |a|
    ensures ValueIn(a + b, lo, hi) == ValueIn(a, lo, hi)
    decreases hi - lo
  {
    if hi > lo {
      ValuePrefix(a, b, lo, hi - 1);
      assert (a + b)[hi - 1] == a[hi - 1];
    }
  }

  lemma {:induction false} ShowNatValue(n: nat)
    ensures DigitsValue(ShowNat(n)) == n
  {
    if n >= 10 {
      var p := ShowNat(n / 10);
      var c := [('0' as int + n % 10) as char];
      var s := ShowNat(n);
      assert s == p + c;
      ValuePrefix(p, c, 0, |p|);
      ShowNatValue(n / 10);
      assert s[|s| - 1] as int - '0' as int == n % 10;
      assert ValueIn(s, 0, |s|) == ValueIn(s, 0, |p|) * 10 + n % 10;
      assert ValueIn(s, 0, |p|) == n / 10;
      assert (n / 10) * 10 + n % 10 == n;
    } else {
      var s := ShowNat(n);
      assert ValueIn(s, 0, 0) == 0;
      assert s[0] as int - '0' as int == n;
    }
  }

  /** A digit string has no white space to strip. */
  lemma StripDigits(s: string)
    requires |s| > 0 && AllDigits(s)
    ensures Strip(s) == s
  {
    assert !IsSpace(s[0]) && !IsSpace(s[|s| - 1]);
  }

  /** `int()` reads back what `ShowNat` writes. */
  lemma ParseShowNat(n: nat)
    ensures ParseInt(ShowNat(n)) == Some(n)
  {
    ShowNatValue(n);
    ParseDigitString(ShowNat(n));
  }

  /** A string of digits is read as its value. */
  lemma ParseDigitString(s: string)
    requires |s| > 0 && AllDigits(s)
    ensures ParseInt(s) == Some(DigitsValue(s))
  {
    StripDigits(s);
    ParseStrippedDigits(s);
  }

  lemma ParseStrippedDigits(t: string)
    requires |t| > 0 && AllDigits(t)
    ensures ParseStripped(t) == Some(DigitsValue(t))
  {
    assert IsDigit(t[0]);
  }

  /** `int()` reads a sign, any white space and then digits as the signed
      value of the digits. */
  lemma ParseSignedDigits(w: string, s: string)
    requires forall i :: 0 <= i < |w| ==> IsSpace(w[i])
    requires |s| > 0 && AllDigits(s)
    ensures ParseInt("-" + w + s) == Some(-(DigitsValue(s) as int))
    ensures ParseInt("+" + w + s) == Some(DigitsValue(s))
  {
    assert "-" + w + s == ['-'] + w + s && "+" + w + s == ['+'] + w + s;
    StripSignSpace('-', w, s);
    StripSignSpace('+', w, s);
    ParseStrippedSigned(['-'] + w + s, s);
    ParseStrippedSigned(['+'] + w + s, s);
  }

  lemma ParseStrippedSigned(t: string, s: string)
    requires |t| > 0 && (t[0] == '-' || t[0] == '+')
    requires StripLeft(t[1..]) == s && |s| > 0 && AllDigits(s)
    ensures ParseStripped(t) == if t[0] == '-' then Some(-(DigitsValue(s) as int)) else Some(DigitsValue(s))
  {
  }

  /** A sign, white space and digits have nothing to strip at either end,
      and the white space after the sign is skipped. */
  lemma StripSignSpace(sign: char, w: string, s: string)
    requires sign == '-' || sign == '+'
    requires forall i :: 0 <= i < |w| ==> IsSpace(w[i])
    requires |s| > 0 && AllDigits(s)
    ensures Strip([sign] + w + s) == [sign] + w + s
    ensures StripLeft(([sign] + w + s)[1..]) == s
  {
    var t := [sign] + w + s;
    assert t[|t| - 1] == s[|s| - 1];
    assert !IsSpace(t[0]) && !IsSpace(t[|t| - 1]);
    assert t[1..] == w + s;
    assert !IsSpace(s[0]);
    StripLeftSpaces(w, s);
  }

  /** Stripping white space in front of a string that starts with no white
      space leaves that string. */
  lemma {:induction false} StripLeftSpaces(w: string, s: string)
    requires forall i :: 0 <= i < |w| ==> IsSpace(w[i])
    requires s == [] || !IsSpace(s[0])
    ensures StripLeft(w + s) == s
    decreases |w|
  {
    if w == [] {
      assert w + s == s;
    } else {
      assert (w + s)[0] == w[0];
      assert (w + s)[1..] == w[1..] + s;
      StripLeftSpaces(w[1..], s);
    }
  }

  /** A digit string padded with white space is read as its value. */
  lemma ParseIntDigits(s: string)
    requires AllDigits(Strip(s)) && Strip(s) != []
    ensures ParseInt(s) == Some(DigitsValue(Strip(s)))
  {
    assert IsDigit(Strip(s)[0]);
  }

  /** A sign with nothing after it, or a piece with no digits, is refused. */
  lemma ParseIntRejects(s: string)
    requires Strip(s) == [] || Strip(s) == "-" || Strip(s) == "+" || !IsDigit(Strip(s)[|Strip(s)| - 1])
    ensures ParseInt(s) == None
  {
  }

  // ---------------------------------------------------------------------
  // parse_date and date_dff

  /** `time.struct_time`: year, month, day of month, hour, minute, second,
      day of week, day of year, daylight-saving flag. */
  datatype TimeStruct = TimeStruct(year: int, mon: int, mday: int, hour: int, minute: int,
                                   sec: int, wday: int, yday: int, isdst: int)

  /** `int()` rejects a piece (always a ValueError in Python), or the date
      part does not split into exactly three pieces (an unpacking
      ValueError). */
  datatype DateError = FieldCount(count: nat) | NotAnInteger(text: string)

  /** The `YEAR_JDAY_HHMM` part of a file name: `filename[2:-13]`. */
  function DatePart(filename: string): string
  {
    PySlice(filename, 2, -13)
  }

  /** `parse_date(filename)`. */
  function ParseDate(filename: string): (r: Result<TimeStruct, DateError>)
    ensures var parts := Split(DatePart(filename), '_');
      (r == Failure(FieldCount(|parts|)) <==> |parts| != 3) &&
      (r.Success? ==>
        && ParseInt(parts[0]) == Some(r.value.year)
        && ParseInt(parts[1]) == Some(r.value.yday)
        && ParseInt(PySlice(parts[2], 0, 2)) == Some(r.value.hour)
        && ParseInt(PySlice(parts[2], 2, |parts[2]|)) == Some(r.value.minute)
        && r.value.mon == 0 && r.value.mday == 0 && r.value.sec == 0
        && r.value.wday == 0 && r.value.isdst == -1) &&
      (|parts| == 3 && ParseInt(parts[0]).Some? && ParseInt(parts[1]).Some? &&
       ParseInt(PySlice(parts[2], 0, 2)).Some? && ParseInt(PySlice(parts[2], 2, |parts[2]|)).Some?
       ==> r.Success?)
  {
    var parts := Split(DatePart(filename), '_');
    if |parts| != 3 then Failure(FieldCount(|parts|))
    else
      var hh := PySlice(parts[2], 0, 2);
      var mm := PySlice(parts[2], 2, |parts[2]|);
      match ParseInt(parts[0])
      case None => Failure(NotAnInteger(parts[0]))
      case Some(year) =>
        match ParseInt(parts[1])
        case None => Failure(NotAnInteger(parts[1]))
        case Some(jday) =>
          match ParseInt(hh)
          case None => Failure(NotAnInteger(hh))
          case Some(hr) =>
            match ParseInt(mm)
            case None => Failure(NotAnInteger(mm))
            case Some(mins) => Success(TimeStruct(year, 0, 0, hr, mins, 0, 0, jday, -1))
  }

  /** `filename[2:-13]` of a name with a two-character head and a
      13-character tail is what lies between them. */
  lemma DatePartOf(head: string, date: string, tail: string)
    requires |head| == 2 && |tail| == 13
    ensures DatePart(head + date + tail) == date
  {
    var f := head + date + tail;
    assert f[2..|f| - 13] == date;
  }

  lemma NoSeparator(s: string)
    requires AllDigits(s)
    ensures '_' !in s
  {
    assert forall i :: 0 <= i < |s| ==> s[i] != '_';
  }

  /** Three digit strings joined by '_' split back into those three. */
  lemma SplitThree(y: string, d: string, h: string)
    requires AllDigits(y) && AllDigits(d) && AllDigits(h)
    ensures Split(y + "_" + d + "_" + h, '_') == [y, d, h]
  {
    var parts := [y, d, h];
    NoSeparator(y);
    NoSeparator(d);
    NoSeparator(h);
    assert Join(parts[1..], '_') == d + "_" + h;
    assert Join(parts, '_') == y + "_" + d + "_" + h;
    SplitJoin(parts, '_');
  }

  /** `parse_date` reads back the year, day of year, hour and minute of a
      name laid out as two leading characters, `YEAR_JDAY_HHMM` in decimal
      digits (leading zeros allowed) and a 13-character tail. */
  lemma ParseDateLayout(head: string, y: string, d: string, hh: string, mm: string, tail: string)
    requires |head| == 2 && |tail| == 13 && |hh| == 2
    requires |y| > 0 && |d| > 0 && |mm| > 0
    requires AllDigits(y) && AllDigits(d) && AllDigits(hh) && AllDigits(mm)
    ensures ParseDate(head + y + "_" + d + "_" + hh + mm + tail) == Success(TimeStruct(
      DigitsValue(y), 0, 0, DigitsValue(hh), DigitsValue(mm), 0, 0, DigitsValue(d), -1))
  {
    var h := hh + mm;
    var date := y + "_" + d + "_" + h;
    assert AllDigits(h) by {
      assert forall i :: 0 <= i < |h| ==> h[i] == if i < 2 then hh[i] else mm[i - 2];
    }
    assert head + y + "_" + d + "_" + hh + mm + tail == head + date + tail;
    DatePartOf(head, date, tail);
    SplitThree(y, d, h);
    assert PySlice(h, 0, 2) == hh;
    assert PySlice(h, 2, |h|) == mm;
    ParseDigitString(y);
    ParseDigitString(d);
    ParseDigitString(hh);
    ParseDigitString(mm);
  }

  /** The fields of a `struct_time` that C's `mktime` reads: it ignores
      `tm_wday` and `tm_yday` (section 7.23.2.3 of ISO C99). */
  datatype CalendarTime = CalendarTime(year: int, mon: int, mday: int, hour: int, minute: int,
                                       sec: int, isdst: int)

  function ToCalendar(t: TimeStruct): CalendarTime
  {
    CalendarTime(t.year, t.mon, t.mday, t.hour, t.minute, t.sec, t.isdst)
  }

  function Abs(x: real): (r: real)
    ensures r >= 0.0 && (r == x || r == -x)
  {
    if x < 0.0 then -x else x
  }

  /** `date_dff(a, b)`: the absolute difference of the two `mktime` values,
      in minutes. `mktime` (local calendar time to seconds) is a
      parameter. */
  function DateDiff(a: TimeStruct, b: TimeStruct, mktime: CalendarTime -> real): (r: real)
    ensures r >= 0.0
    ensures r * 60.0 == Abs(mktime(ToCalendar(a)) - mktime(ToCalendar(b)))
  {
    Abs((mktime(ToCalendar(a)) - mktime(ToCalendar(b))) / 60.0)
  }

  /** The difference is non-negative, symmetric and zero from a date to
      itself, whatever `mktime` is. */
  lemma DateDiffMetric(a: TimeStruct, b: TimeStruct, mktime: CalendarTime -> real)
    ensures DateDiff(a, b, mktime) >= 0.0
    ensures DateDiff(a, b, mktime) == DateDiff(b, a, mktime)
    ensures DateDiff(a, a, mktime) == 0.0
  {
    var x := mktime(ToCalendar(a)) - mktime(ToCalendar(b));
    assert (-x) / 60.0 == -(x / 60.0);
  }

  /** The day of year (and of week) never matters: dates parsed from two
      files that differ only in their day of year are zero minutes apart. */
  lemma DateDiffIgnoresDayOfYear(a: TimeStruct, b: TimeStruct, mktime: CalendarTime -> real)
    requires a.(yday := b.yday, wday := b.wday) == b
    ensures DateDiff(a, b, mktime) == 0.0
  {
    assert ToCalendar(a) == ToCalendar(b);
  }

  /** `c` with its day of the month replaced. */
  function WithDay(c: CalendarTime, day: int): (r: CalendarTime)
    ensures r.mday == day && r.(mday := c.mday) == c
  {
    c.(mday := day)
  }

  /** The date `parse_date` evidently means: the day of year given to
      `mktime` as a day of January, which `mktime` carries over into the
      later months. */
  function CalendarDate(t: TimeStruct): (r: TimeStruct)
    ensures ToCalendar(r) == CalendarTime(t.year, 1, t.yday, t.hour, t.minute, t.sec, t.isdst)
    ensures r.yday == t.yday && r.wday == t.wday
  {
    t.(mon := 1, mday := t.yday)
  }

  /** With the day of year passed on as a day of January, two dates that
      differ only in their day of year are 1440 minutes apart per day, for
      any `mktime` under which a day lasts 86400 seconds. */
  lemma DateDiffCountsDays(a: TimeStruct, b: TimeStruct, mktime: CalendarTime -> real)
    requires a.(yday := b.yday, wday := b.wday) == b
    requires forall c: CalendarTime, day: int :: mktime(WithDay(c, day)) == mktime(WithDay(c, 0)) + 86400.0 * day as real
    ensures DateDiff(CalendarDate(a), CalendarDate(b), mktime) == 1440.0 * Abs((a.yday - b.yday) as real)
  {
    var cb := ToCalendar(CalendarDate(b));
    assert ToCalendar(CalendarDate(a)) == WithDay(cb, a.yday);
    assert cb == WithDay(cb, b.yday);
    var x := mktime(WithDay(cb, a.yday)) - mktime(WithDay(cb, b.yday));
    assert x == 86400.0 * (a.yday - b.yday) as real;
    assert x / 60.0 == 1440.0 * (a.yday - b.yday) as real;
  }
}
