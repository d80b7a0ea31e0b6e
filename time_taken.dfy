/**
 * `get_time_taken`: when a photo or video was most likely taken. Three
 * sources are tried in order: the EXIF `DateTimeOriginal` tag, a
 * `YYYYMMDD_HHMMSS` run in the file's path, and the file's modification time.
 * The EXIF reader and the file system's modification time are inputs here;
 * the search of the path and the date arithmetic are modelled exactly.
 */
module TimeTaken {
  import opened Wrappers
  import opened Strings
  import opened Calendar

  /** `\d{8}_\d{6}` occurs at position `j` of `p`. */
  predicate IsStampAt(p: string, j: int) {
    && 0 <= j && j + 15 <= |p|
    && (forall k :: j <= k < j + 8 ==> IsDigit(p[k]))
    && p[j + 8] == '_'
    && (forall k :: j + 9 <= k < j + 15 ==> IsDigit(p[k]))
  }

  /** No newline in `p[lo..hi]`: `.` in a Python pattern matches anything else. */
  predicate NoNewline(p: string, lo: int, hi: int)
    requires 0 <= lo <= hi <= |p|
  {
    forall k :: lo <= k < hi ==> p[k] != '\n'
  }

  /**
   * The pattern `.+(\d{8}_\d{6}).+` matches at start `s` with its group at
   * `j`: at least one character before the group and at least one after it,
   * none of them a newline.
   */
  predicate MatchesAt(p: string, s: int, j: int) {
    && 0 <= s < j
    && j + 16 <= |p|
    && IsStampAt(p, j)
    && NoNewline(p, s, j + 16)
  }

  /** A successful `re.search`: where the match starts and where its group starts. */
  datatype Match = Match(start: int, group: int)

  /**
   * For a fixed start, the greedy `.+` gives back one character at a time, so
   * group positions are tried from the right, from `j` down to `s + 1`.
   */
  function TryGroups(p: string, s: int, j: int): Option<int>
    requires 0 <= s
    decreases j - s
  {
    if j <= s then None
    else if MatchesAt(p, s, j) then Some(j)
    else TryGroups(p, s, j - 1)
  }

  /** The group found for a start is the rightmost one at or below `j`. */
  lemma {:induction false} TryGroupsSpec(p: string, s: int, j: int)
    requires 0 <= s
    ensures var r := TryGroups(p, s, j);
            && (r.Some? ==> s < r.value <= j && MatchesAt(p, s, r.value))
            && (r.Some? ==> forall g :: r.value < g <= j ==> !MatchesAt(p, s, g))
            && (r.None? ==> forall g :: g <= j ==> !MatchesAt(p, s, g))
    decreases j - s
  {
    if s < j && !MatchesAt(p, s, j) {
      TryGroupsSpec(p, s, j - 1);
    }
  }

  /** `re.search` tries start positions from the left; the first that matches wins. */
  function SearchFrom(p: string, s: nat): Option<Match>
    decreases |p| - s
  {
    if s >= |p| then None
    else
      match TryGroups(p, s, |p| - 16)
      case Some(j) => Some(Match(s, j))
      case None => SearchFrom(p, s + 1)
  }

  /**
   * The match found starts at the leftmost start that admits one, and its
   * group is the rightmost for that start.
   */
  lemma {:induction false} SearchFromSpec(p: string, s: nat)
    ensures var r := SearchFrom(p, s);
            && (r.Some? ==> s <= r.value.start && MatchesAt(p, r.value.start, r.value.group))
            && (r.Some? ==> forall g :: r.value.group < g ==> !MatchesAt(p, r.value.start, g))
            && (r.Some? ==> forall t, g :: s <= t < r.value.start ==> !MatchesAt(p, t, g))
            && (r.None? ==> forall t, g :: s <= t ==> !MatchesAt(p, t, g))
    decreases |p| - s
  {
    if s < |p| {
      TryGroupsSpec(p, s, |p| - 16);
      if TryGroups(p, s, |p| - 16).None? {
        SearchFromSpec(p, s + 1);
      }
    }
  }

  /** `re.search(r'.+(\d{8}_\d{6}).+', path)`: the start of group 1, if it matches. */
  function StampSearch(path: string): (r: Option<int>)
    ensures r.Some? ==> 1 <= r.value && r.value + 16 <= |path| && IsStampAt(path, r.value)
  {
    SearchFromSpec(path, 0);
    match SearchFrom(path, 0)
    case Some(m) => Some(m.group)
    case None => None
  }

  /**
   * For a path without newlines the search finds the rightmost
   * `YYYYMMDD_HHMMSS` run that has a character before it and one after it,
   * and finds nothing exactly when there is no such run.
   */
  lemma StampSearchRightmost(path: string)
    requires NoNewline(path, 0, |path|)
    ensures forall j :: StampSearch(path) == Some(j) <==>
              (&& 1 <= j && j + 16 <= |path| && IsStampAt(path, j)
               && forall g :: j < g && g + 16 <= |path| ==> !IsStampAt(path, g))
    ensures StampSearch(path).None? <==> forall j :: 1 <= j && j + 16 <= |path| ==> !IsStampAt(path, j)
  {
    assert forall j :: MatchesAt(path, 0, j) <==> 1 <= j && j + 16 <= |path| && IsStampAt(path, j);
    SearchFromSpec(path, 0);
    match SearchFrom(path, 0)
    case Some(m) =>
      assert m.start == 0;
    case None =>
  }

  /** The fifteen characters of a run are shaped like `YYYYMMDD_HHMMSS`. */
  predicate IsStamp(run: string) {
    |run| == 15 && IsStampAt(run, 0)
  }

  lemma StampSlice(p: string, j: int)
    requires IsStampAt(p, j)
    ensures IsStamp(p[j..j + 15])
  {
  }

  /** `strptime(run, '%Y%m%d_%H%M%S')` reads two-digit fields after a four-digit year. */
  function ParseStamp(run: string): DateTime
    requires IsStamp(run)
  {
    DateTime(DigitsValue(run[0..4]), DigitsValue(run[4..6]), DigitsValue(run[6..8]),
             DigitsValue(run[9..11]), DigitsValue(run[11..13]), DigitsValue(run[13..15]))
  }

  /** `'%04d%02d%02d_%02d%02d%02d'` of a date-time: how such a run is written. */
  function StampText(t: DateTime): string
    requires 0 <= t.year <= 9999 && 0 <= t.month <= 99 && 0 <= t.day <= 99
    requires 0 <= t.hour <= 99 && 0 <= t.minute <= 99 && 0 <= t.second <= 99
  {
    ZeroPad(NatToString(t.year), 4) + ZeroPad(NatToString(t.month), 2) + ZeroPad(NatToString(t.day), 2)
      + "_" + ZeroPad(NatToString(t.hour), 2) + ZeroPad(NatToString(t.minute), 2) + ZeroPad(NatToString(t.second), 2)
  }

  lemma PaddedWidth(x: nat, w: nat, bound: nat)
    requires x <= bound && |NatToString(bound)| == w
    ensures |ZeroPad(NatToString(x), w)| == w
  {
    DigitCountMonotone(x, bound);
  }

  /** Reading a written run gives back the date-time it was written from. */
  lemma ParseStampText(t: DateTime)
    requires 0 <= t.year <= 9999 && 0 <= t.month <= 99 && 0 <= t.day <= 99
    requires 0 <= t.hour <= 99 && 0 <= t.minute <= 99 && 0 <= t.second <= 99
    ensures IsStamp(StampText(t))
    ensures ParseStamp(StampText(t)) == t
  {
    assert |NatToString(9999)| == 4;
    assert |NatToString(99)| == 2;
    var y := ZeroPad(NatToString(t.year), 4);
    var mo := ZeroPad(NatToString(t.month), 2);
    var d := ZeroPad(NatToString(t.day), 2);
    var h := ZeroPad(NatToString(t.hour), 2);
    var mi := ZeroPad(NatToString(t.minute), 2);
    var se := ZeroPad(NatToString(t.second), 2);
    PaddedWidth(t.year, 4, 9999);
    PaddedWidth(t.month, 2, 99);
    PaddedWidth(t.day, 2, 99);
    PaddedWidth(t.hour, 2, 99);
    PaddedWidth(t.minute, 2, 99);
    PaddedWidth(t.second, 2, 99);
    JoinedFields(y, mo, d, h, mi, se);
    assert StampText(t) == y + mo + d + "_" + h + mi + se;
  }

  /** Where each field of a joined `YYYYMMDD_HHMMSS` run sits. */
  lemma JoinedFields(y: string, mo: string, d: string, h: string, mi: string, se: string)
    requires |y| == 4 && |mo| == 2 && |d| == 2 && |h| == 2 && |mi| == 2 && |se| == 2
    requires AllDigits(y) && AllDigits(mo) && AllDigits(d) && AllDigits(h) && AllDigits(mi) && AllDigits(se)
    ensures var run := y + mo + d + "_" + h + mi + se;
            && IsStamp(run)
            && run[0..4] == y && run[4..6] == mo && run[6..8] == d
            && run[9..11] == h && run[11..13] == mi && run[13..15] == se
  {
  }

  /** What the EXIF reader reports for `EXIF DateTimeOriginal`. */
  datatype ExifTag =
    | NoTag
      /** The tag is present; `reading` holds the fields `strptime` reads from
          its text with `'%Y:%m:%d %H:%M:%S'`, or None when the text does not
          fit that format. */
    | Tag(reading: Option<DateTime>)

  /**
   * What the file system and the EXIF reader report for one file: either
   * `open(file, 'rb')` fails (a directory the glob matched, a missing or
   * unreadable file), or it succeeds and the EXIF tag and the modification
   * time are known.
   */
  datatype FileFacts =
    | Unopenable
    | Opened(exif: ExifTag, mtime: int)

  /**
   * The exceptions `get_time_taken` lets through: the `IOError` of `open`,
   * and the `ValueError` that `strptime` or `datetime` raises.
   */
  datatype TimeError = CannotOpen | BadExifDate | BadPathDate(run: string)

  /** Turning a parsed date-time into a timestamp; `datetime` rejects impossible dates. */
  function ExifTime(reading: Option<DateTime>): Result<int, TimeError> {
    match reading
    case Some(t) => if Valid(t) then Success(TimeGm(t)) else Failure(BadExifDate)
    case None => Failure(BadExifDate)
  }

  function StampTime(run: string): Result<int, TimeError>
    requires IsStamp(run)
  {
    var t := ParseStamp(run);
    if Valid(t) then Success(TimeGm(t)) else Failure(BadPathDate(run))
  }

  /**
   * `get_time_taken`: the file is opened first; then EXIF, then the path,
   * then the modification time.
   */
  function GetTimeTaken(path: string, facts: FileFacts): Result<int, TimeError> {
    match facts
    case Unopenable => Failure(CannotOpen)
    case Opened(exif, mtime) =>
      match exif
      case Tag(reading) => ExifTime(reading)
      case NoTag =>
        match StampSearch(path)
        case Some(j) =>
          StampSlice(path, j);
          StampTime(path[j..j + 15])
        case None => Success(mtime)
  }

  /** A file that cannot be opened raises before any source of time is consulted. */
  lemma UnopenableFails(path: string)
    ensures GetTimeTaken(path, Unopenable) == Failure(CannotOpen)
  {
  }

  /** A present EXIF tag decides alone: neither the path nor the mtime is consulted. */
  lemma ExifDecides(path: string, facts: FileFacts, otherPath: string, otherMtime: int)
    requires facts.Opened? && facts.exif.Tag?
    ensures GetTimeTaken(path, facts) == ExifTime(facts.exif.reading)
    ensures GetTimeTaken(path, facts) == GetTimeTaken(otherPath, Opened(facts.exif, otherMtime))
  {
  }

  /** Without EXIF, a stamp in the path decides and the mtime is not consulted. */
  lemma PathDecides(path: string, facts: FileFacts, otherMtime: int)
    requires facts.Opened? && facts.exif == NoTag && StampSearch(path).Some?
    ensures var j := StampSearch(path).value;
            IsStamp(path[j..j + 15]) && GetTimeTaken(path, facts) == StampTime(path[j..j + 15])
    ensures GetTimeTaken(path, facts) == GetTimeTaken(path, Opened(NoTag, otherMtime))
  {
  }

  /** With neither EXIF nor a stamp in the path, the mtime is the answer. */
  lemma MtimeLast(path: string, facts: FileFacts)
    requires facts.Opened? && facts.exif == NoTag && StampSearch(path).None?
    ensures GetTimeTaken(path, facts) == Success(facts.mtime)
  {
  }

  /**
   * `get_time_taken` raises exactly when the file cannot be opened, or when
   * the source it settles on holds a date that does not parse or does not
   * exist; it never falls through to the next source on such an error.
   */
  lemma FailsOnlyOnBadDates(path: string, facts: FileFacts)
    ensures GetTimeTaken(path, facts).Failure? <==>
              || facts.Unopenable?
              || (facts.Opened? && facts.exif.Tag? && (facts.exif.reading.None? || !Valid(facts.exif.reading.value)))
              || (facts.Opened? && facts.exif == NoTag && StampSearch(path).Some?
                  && !Valid(ParseStamp(path[StampSearch(path).value..StampSearch(path).value + 15])))
  {
  }

  /** A valid date-time written into a path is read back as its timestamp. */
  lemma StampRoundTrip(t: DateTime)
    requires Valid(t)
    ensures IsStamp(StampText(t)) && StampTime(StampText(t)) == Success(TimeGm(t))
  {
    ParseStampText(t);
  }

  /** In `IMG_20140512_183000.jpg` the search finds the run at position 4. */
  lemma ExampleSearch()
    ensures StampSearch("IMG_20140512_183000.jpg") == Some(4)
  {
    var p := "IMG_20140512_183000.jpg";
    assert IsStampAt(p, 4);
    forall g | 4 < g && g + 16 <= |p|
      ensures !IsStampAt(p, g)
    {
      assert g == 5 || g == 6 || g == 7;
      assert p[g + 8] != '_';
    }
    StampSearchRightmost(p);
  }

  lemma ExampleFields()
    ensures IsStamp("20140512_183000") && ParseStamp("20140512_183000") == DateTime(2014, 5, 12, 18, 30, 0)
  {
    JoinedFields("2014", "05", "12", "18", "30", "00");
    assert "20140512_183000" == "2014" + "05" + "12" + "_" + "18" + "30" + "00";
    assert DigitsValue("2014") == 2014 by {
      assert "2014"[..3] == "201" && "201"[..2] == "20" && "20"[..1] == "2" && "2"[..0] == "";
    }
    assert DigitsValue("05") == 5 && DigitsValue("12") == 12 by {
      assert "05"[..1] == "0" && "12"[..1] == "1" && "0"[..0] == "" && "1"[..0] == "";
    }
    assert DigitsValue("18") == 18 && DigitsValue("30") == 30 && DigitsValue("00") == 0 by {
      assert "18"[..1] == "1" && "30"[..1] == "3" && "00"[..1] == "0" && "3"[..0] == "";
    }
  }

  lemma ExampleStampTime()
    ensures IsStamp("20140512_183000") && StampTime("20140512_183000") == Success(1399919400)
  {
    ExampleFields();
    assert TimeGm(DateTime(2014, 5, 12, 18, 30, 0)) == 1399919400;
  }

  lemma ExampleRun()
    ensures "IMG_20140512_183000.jpg"[4..19] == "20140512_183000"
  {
  }

  /** A phone-style file name without EXIF data: the stamp in the name is used. */
  lemma PathStampExample(mtime: int)
    ensures GetTimeTaken("IMG_20140512_183000.jpg", Opened(NoTag, mtime)) == Success(1399919400)
  {
    ExampleSearch();
    ExampleRun();
    ExampleStampTime();
    PathDecides("IMG_20140512_183000.jpg", Opened(NoTag, mtime), mtime);
  }
}
