/** cmd/import-pirate-map: from the folders and placemarks of a map to the import batch. */
module Kml {
  import opened Schema
  import opened Text
  import opened Selection
  import Calendar
  import Import

  datatype Place = Place(name: string, description: string, coordinates: string)
  datatype Folder = Folder(name: string, places: seq<Place>)
  datatype Doc = Doc(folders: seq<Folder>, places: seq<Place>)

  datatype Class = Exists | Gone | Discard | Unknown

  /** Calls taken as given: strconv.ParseFloat, where None also stands for an infinity or NaN
      (the caller counts them like an error), the hashed key, and the keyword rules for message
      and medium. */
  datatype Lib = Lib(parseFloat: string -> Option<real>, naturalId: (string, string, real, real) -> string,
                     message: (string, string) -> string, medium: string -> string)

  datatype FolderStat = FolderStat(name: string, class_: Class, count: nat)

  const NO_FOLDER := "(placemarks with no folder)"

  function Classify(folderName: string): Class {
    var n := ToLower(folderName);
    if Contains(n, "billboard") || Contains(n, "questionable legality") then Discard
    else if Contains(n, "plunder") || Contains(n, "removed") then Gone
    else if Contains(n, "reported") then Exists
    else Unknown
  }

  /** The words that class a folder, whatever the case of its name; discarding wins over gone, and
      gone over reported. */
  lemma ClassifyMeans(folderName: string, n: string)
    requires IsLowered(folderName, n)
    ensures var discard := Contains(n, "billboard") || Contains(n, "questionable legality");
            var gone := Contains(n, "plunder") || Contains(n, "removed");
            && (Classify(folderName) == Discard <==> discard)
            && (Classify(folderName) == Gone <==> gone && !discard)
            && (Classify(folderName) == Exists <==> Contains(n, "reported") && !gone && !discard)
  {
    LowerMeans(folderName, n);
  }

  // ---------------------------------------------------------------------------
  // Coordinates
  // ---------------------------------------------------------------------------

  function TakeField(s: string): string {
    if s == "" || IsSpace(s[0]) then "" else [s[0]] + TakeField(s[1..])
  }

  /** parseLonLat: the first tuple, longitude first; returns (lat, lon). */
  function ParseLonLat(lib: Lib, s: string): Option<(real, real)> {
    var field := TakeField(TrimLeft(s));
    var parts := Split(field, ',');
    if field == "" || |parts| < 2 then None
    else
      var lon, lat := lib.parseFloat(parts[0]), lib.parseFloat(parts[1]);
      if lon.None? || lat.None? then None else Some((lat.value, lon.value))
  }

  lemma {:induction false} FieldOf(field: string, rest: string)
    requires (forall i :: 0 <= i < |field| ==> !IsSpace(field[i])) && (rest == "" || IsSpace(rest[0]))
    ensures TakeField(field + rest) == field
  {
    if field == "" {
      assert field + rest == rest;
    } else {
      assert (field + rest)[1..] == field[1..] + rest;
      FieldOf(field[1..], rest);
    }
  }

  lemma {:induction false} SpacesAreSkipped(lead: string, s: string)
    requires (forall i :: 0 <= i < |lead| ==> IsSpace(lead[i])) && s != "" && !IsSpace(s[0])
    ensures TrimLeft(lead + s) == s
  {
    if lead == "" {
      assert lead + s == s;
    } else {
      assert (lead + s)[1..] == lead[1..] + s;
      SpacesAreSkipped(lead[1..], s);
    }
  }

  predicate IsNumberText(s: string) {
    s != "" && ',' !in s && forall i :: 0 <= i < |s| ==> !IsSpace(s[i])
  }

  /** Of a body of tuples "lon,lat" or "lon,lat,alt" among white space, the first is read, and
      its first number is the longitude. */
  lemma FirstTupleIsRead(lib: Lib, lead: string, lon: string, lat: string, alt: string, rest: string)
    requires (forall i :: 0 <= i < |lead| ==> IsSpace(lead[i])) && (rest == "" || IsSpace(rest[0]))
    requires IsNumberText(lon) && IsNumberText(lat) && (alt == "" || IsNumberText(alt))
    ensures var tuple := lon + [','] + (if alt == "" then lat else lat + [','] + alt);
            ParseLonLat(lib, lead + (tuple + rest)) ==
            if lib.parseFloat(lon).Some? && lib.parseFloat(lat).Some?
                then Some((lib.parseFloat(lat).value, lib.parseFloat(lon).value))
            else None
  {
    var tail := if alt == "" then lat else lat + [','] + alt;
    var tuple := lon + [','] + tail;
    assert (tuple + rest)[0] == lon[0];
    SpacesAreSkipped(lead, tuple + rest);
    FieldOf(tuple, rest);
    SplitFirst(lon, ',', tail);
    if alt == "" {
      SplitNone(lat, ',');
    } else {
      SplitFirst(lat, ',', alt);
    }
  }

  // ---------------------------------------------------------------------------
  // Dates
  // ---------------------------------------------------------------------------

  /** \s of a Go regular expression. */
  predicate IsRegexSpace(c: char) {
    c == ' ' || c == '\t' || c == '\n' || c == '\r' || c == '\U{0C}'
  }

  function SkipSpaces(s: string): (r: string)
    ensures |r| <= |s|
  {
    if s != "" && IsRegexSpace(s[0]) then SkipSpaces(s[1..]) else s
  }

  /** The length of a match of (?i)<br\s*\/?> at the start of s, or 0. */
  function BreakLength(s: string): (n: nat)
    ensures n <= |s|
  {
    if |s| >= 4 && s[0] == '<' && Lower(s[1]) == 'b' && Lower(s[2]) == 'r' then
      var r := SkipSpaces(s[3..]);
      var e := if r != "" && r[0] == '/' then r[1..] else r;
      if e != "" && e[0] == '>' then |s| - |e| + 1 else 0
    else 0
  }

  /** The lines of a description: `line` holds what has been read of the current one. */
  function Lines(s: string, line: string): (lines: seq<string>)
    ensures |lines| >= 1
    decreases |s|
  {
    if s == "" then [line]
    else if BreakLength(s) > 0 then [line] + Lines(s[BreakLength(s)..], "")
    else Lines(s[1..], line + [s[0]])
  }

  lemma {:induction false} LinesWithin(a: string, rest: string, line: string)
    requires '<' !in a
    ensures Lines(a + rest, line) == Lines(rest, line + a)
    decreases |a|
  {
    if a == "" {
      assert a + rest == rest && line + a == line;
    } else {
      assert (a + rest)[1..] == a[1..] + rest && line + [a[0]] + a[1..] == line + a;
      LinesWithin(a[1..], rest, line + [a[0]]);
    }
  }

  /** One of the forms of a line break in HTML: in either case, with or without a slash, and with
      spaces before it. */
  predicate IsBreak(b: string) {
    || b == "<br>" || b == "<BR>" || b == "<br/>" || b == "<BR/>" || b == "<br />" || b == "<BR />"
  }

  lemma BreakIsRead(b: string, rest: string)
    requires IsBreak(b)
    ensures BreakLength(b + rest) == |b|
  {
    var s := b + rest;
    assert s[0] == '<' && Lower(s[1]) == 'b' && Lower(s[2]) == 'r';
    if |b| == 4 {
      assert s[3..] == ">" + rest && SkipSpaces(s[3..]) == s[3..];
    } else if |b| == 5 {
      assert s[3..] == "/>" + rest && SkipSpaces(s[3..]) == s[3..];
      assert s[3..][1..] == ">" + rest;
    } else {
      assert s[3..] == " />" + rest && s[3..][1..] == "/>" + rest && SkipSpaces(s[3..][1..]) == s[3..][1..];
      assert s[3..][1..][1..] == ">" + rest;
    }
  }

  /** A description of lines joined by breaks falls into these lines. */
  lemma LinesAreSplit(a: string, b: string, rest: string)
    requires '<' !in a && IsBreak(b)
    ensures Lines(a, "") == [a]
    ensures Lines(a + (b + rest), "") == [a] + Lines(rest, "")
  {
    assert a + "" == a && "" + a == a;
    LinesWithin(a, "", "");
    LinesWithin(a, b + rest, "");
    BreakIsRead(b, rest);
    assert (b + rest)[|b|..] == rest;
  }

  predicate IsWord(c: char) {
    IsDigit(c) || 'a' <= c <= 'z' || 'A' <= c <= 'Z' || c == '_'
  }

  function Number(s: string, i: nat): int
    requires i + 1 < |s|
  {
    (s[i] as int - '0' as int) * 10 + s[i + 1] as int - '0' as int
  }

  predicate TwoDigits(s: string, i: nat)
    requires i + 1 < |s|
  {
    IsDigit(s[i]) && IsDigit(s[i + 1])
  }

  /** A match of \b(0[1-9]|1[0-2])/(0[1-9]|[12][0-9]|3[01])/[0-9]{2}\b at position i. */
  predicate DateAt(s: string, i: nat) {
    && i + 8 <= |s| && s[i + 2] == '/' && s[i + 5] == '/'
    && TwoDigits(s, i) && TwoDigits(s, i + 3) && TwoDigits(s, i + 6)
    && 1 <= Number(s, i) <= 12 && 1 <= Number(s, i + 3) <= 31
    && (i == 0 || !IsWord(s[i - 1])) && (i + 8 == |s| || !IsWord(s[i + 8]))
  }

  /** The last of the successive non-overlapping matches from position i on. */
  function LastDate(s: string, i: nat, last: Option<nat>): (at: Option<nat>)
    requires last.Some? ==> DateAt(s, last.value)
    ensures at.Some? ==> DateAt(s, at.value)
    decreases |s| - i
  {
    if i + 8 > |s| then last
    else if DateAt(s, i) then LastDate(s, i + 8, Some(i))
    else LastDate(s, i + 1, last)
  }

  /** time.Parse with layout 01/02/06, at 04:20 UTC; None when the month has no such day. */
  function DateValue(s: string, i: nat): Option<int>
    requires DateAt(s, i)
  {
    var yy := Number(s, i + 6);
    var c := Calendar.Civil(if yy >= 69 then 1900 + yy else 2000 + yy, Number(s, i), Number(s, i + 3), 4, 20, 0);
    if c.Valid() then Some(c.Epoch()) else None
  }

  /** The date a line yields. */
  function LineDate(line: string): Option<int> {
    var s := TrimRight(TrimLeft(line));
    var at := LastDate(s, 0, None);
    if at.None? then None else DateValue(s, at.value)
  }

  /** A date written as mm/dd/yy. */
  function WrittenDate(month: int, day: int, year: int): string
    requires month >= 0 && day >= 0
  {
    Calendar.Digits(month, 2) + ("/" + (Calendar.Digits(day, 2) + ("/" + Calendar.Digits(year % 100, 2))))
  }

  lemma TwoDigitsReadBack(n: int)
    requires 0 <= n < 100
    ensures Calendar.Digits(n, 2) == [Calendar.Digit(n / 10), Calendar.Digit(n % 10)]
  {
    assert Calendar.Digits(n / 10 / 10, 0) == "";
    assert Calendar.Digits(n / 10, 1) == [Calendar.Digit(n / 10 % 10)];
  }

  lemma DigitsAreRead(s: string, i: nat, n: int)
    requires 0 <= n < 100 && i + 1 < |s| && s[i] == Calendar.Digit(n / 10) && s[i + 1] == Calendar.Digit(n % 10)
    ensures TwoDigits(s, i) && Number(s, i) == n
  {
  }

  lemma OnlyDate(s: string)
    requires |s| == 8 && DateAt(s, 0)
    ensures LineDate(s) == DateValue(s, 0)
  {
    assert TrimLeft(s) == s && TrimRight(s) == s;
    assert LastDate(s, 8, Some(0)) == Some(0);
  }

  lemma EightCharacters(s: string, m: int, d: int, y: int)
    requires 1 <= m <= 12 && 1 <= d <= 31 && 0 <= y < 100 && |s| == 8 && s[2] == '/' && s[5] == '/'
    requires s[0] == Calendar.Digit(m / 10) && s[1] == Calendar.Digit(m % 10)
    requires s[3] == Calendar.Digit(d / 10) && s[4] == Calendar.Digit(d % 10)
    requires s[6] == Calendar.Digit(y / 10) && s[7] == Calendar.Digit(y % 10)
    ensures DateAt(s, 0) && Number(s, 0) == m && Number(s, 3) == d && Number(s, 6) == y
  {
    DigitsAreRead(s, 0, m);
    DigitsAreRead(s, 3, d);
    DigitsAreRead(s, 6, y);
  }

  lemma WrittenDateIsDate(m: int, d: int, year: int, s: string)
    requires 1 <= m <= 12 && 1 <= d <= 31 && s == WrittenDate(m, d, year)
    ensures |s| == 8 && DateAt(s, 0) && Number(s, 0) == m && Number(s, 3) == d && Number(s, 6) == year % 100
  {
    var y := year % 100;
    TwoDigitsReadBack(m);
    TwoDigitsReadBack(d);
    TwoDigitsReadBack(y);
    EightCharacters(s, m, d, y);
  }

  /** Every date of the years 1969 to 2068 is read back from a line of its own, at 04:20. */
  lemma WrittenDateIsRead(c: Calendar.Civil)
    requires c.Valid() && 1969 <= c.year <= 2068 && c.hour == 4 && c.minute == 20 && c.second == 0
    ensures LineDate(WrittenDate(c.month, c.day, c.year)) == Some(c.Epoch())
  {
    var s := WrittenDate(c.month, c.day, c.year);
    WrittenDateIsDate(c.month, c.day, c.year, s);
    OnlyDate(s);
    DateIs(s, c);
  }

  lemma DateIs(s: string, c: Calendar.Civil)
    requires DateAt(s, 0) && Number(s, 0) == c.month && Number(s, 3) == c.day && Number(s, 6) == c.year % 100
    requires c.Valid() && 1969 <= c.year <= 2068 && c.hour == 4 && c.minute == 20 && c.second == 0
    ensures DateValue(s, 0) == Some(c.Epoch())
  {
    assert c.year == (if c.year % 100 >= 69 then 1900 else 2000) + c.year % 100;
    assert c == Calendar.Civil(c.year, c.month, c.day, 4, 20, 0);
  }

  lemma {:induction false} NoDateBetween(s: string, i: nat, k: nat, last: Option<nat>)
    requires i <= k && k + 8 <= |s| && (last.Some? ==> DateAt(s, last.value))
    requires forall j :: i <= j < k ==> !IsDigit(s[j])
    ensures LastDate(s, i, last) == LastDate(s, k, last)
    decreases k - i
  {
    if i == k {
    } else {
      assert !DateAt(s, i);
      NoDateBetween(s, i + 1, k, last);
    }
  }

  /** Of two dates on a line the last is the one that is read. */
  lemma LastDateIsRead(c: Calendar.Civil, d: Calendar.Civil, mid: string)
    requires c.Valid() && 1969 <= c.year <= 2068
    requires d.Valid() && 1969 <= d.year <= 2068 && d.hour == 4 && d.minute == 20 && d.second == 0
    requires mid != "" && !IsWord(mid[0]) && !IsWord(mid[|mid| - 1]) && forall i :: 0 <= i < |mid| ==> !IsDigit(mid[i])
    ensures LineDate(WrittenDate(c.month, c.day, c.year) + (mid + WrittenDate(d.month, d.day, d.year))) ==
            Some(d.Epoch())
  {
    var x, y := WrittenDate(c.month, c.day, c.year), WrittenDate(d.month, d.day, d.year);
    WrittenDateIsDate(c.month, c.day, c.year, x);
    WrittenDateIsDate(d.month, d.day, d.year, y);
    TwoDatesRead(x, y, mid);
    DateIs(y, d);
  }

  lemma DateMoves(s: string, i: nat, x: string)
    requires i + 8 <= |s| && |x| == 8 && DateAt(x, 0) && (forall k :: 0 <= k < 8 ==> s[i + k] == x[k])
    requires (i == 0 || !IsWord(s[i - 1])) && (i + 8 == |s| || !IsWord(s[i + 8]))
    ensures DateAt(s, i) && DateValue(s, i) == DateValue(x, 0)
  {
    assert s[i] == x[0] && s[i + 1] == x[1] && s[i + 2] == x[2] && s[i + 3] == x[3];
    assert s[i + 4] == x[4] && s[i + 5] == x[5] && s[i + 6] == x[6] && s[i + 7] == x[7];
  }

  lemma LastOfTwo(s: string, n: nat)
    requires 8 <= n && |s| == n + 8 && DateAt(s, 0) && DateAt(s, n) && forall i :: 8 <= i < n ==> !IsDigit(s[i])
    ensures LastDate(s, 0, None) == Some(n)
  {
    assert LastDate(s, 0, None) == LastDate(s, 8, Some(0));
    NoDateBetween(s, 8, n, Some(0));
    assert LastDate(s, n, Some(0)) == LastDate(s, n + 8, Some(n));
  }

  lemma NothingToTrim(s: string)
    requires s != "" && !IsSpace(s[0]) && !IsSpace(s[|s| - 1])
    ensures TrimRight(TrimLeft(s)) == s
  {
  }

  lemma LineDateIs(s: string, n: nat)
    requires TrimRight(TrimLeft(s)) == s && DateAt(s, n) && LastDate(s, 0, None) == Some(n)
    ensures LineDate(s) == DateValue(s, n)
  {
  }

  lemma TwoDatesAre(x: string, y: string, mid: string, s: string, n: nat)
    requires |x| == 8 && DateAt(x, 0) && |y| == 8 && DateAt(y, 0) && s == x + (mid + y) && n == 8 + |mid|
    requires mid != "" && !IsWord(mid[0]) && !IsWord(mid[|mid| - 1])
    ensures |s| == n + 8 && s[0] == x[0] && s[|s| - 1] == y[7] && forall i :: 8 <= i < n ==> s[i] == mid[i - 8]
    ensures DateAt(s, 0) && DateAt(s, n) && DateValue(s, n) == DateValue(y, 0)
  {
    DateMoves(s, 0, x);
    DateMoves(s, n, y);
  }

  lemma TwoDatesRead(x: string, y: string, mid: string)
    requires |x| == 8 && DateAt(x, 0) && |y| == 8 && DateAt(y, 0)
    requires mid != "" && !IsWord(mid[0]) && !IsWord(mid[|mid| - 1]) && forall i :: 0 <= i < |mid| ==> !IsDigit(mid[i])
    ensures LineDate(x + (mid + y)) == DateValue(y, 0)
  {
    var s, n := x + (mid + y), 8 + |mid|;
    TwoDatesAre(x, y, mid, s, n);
    LastOfTwo(s, n);
    NothingToTrim(s);
    LineDateIs(s, n);
  }

  /** The date of the last of lines[from..k] that yields one under dateOf. */
  function LastLineDate(dateOf: string -> Option<int>, lines: seq<string>, from: nat, k: nat): (date: Option<int>)
    requires from <= k <= |lines|
    ensures date.None? ==> forall i :: from <= i < k ==> dateOf(lines[i]).None?
    ensures date.Some? ==> exists i :: from <= i < k && dateOf(lines[i]) == date && forall j :: i < j < k ==>
            dateOf(lines[j]).None?
    decreases k
  {
    if k == from then None
    else if dateOf(lines[k - 1]).Some? then dateOf(lines[k - 1])
    else LastLineDate(dateOf, lines, from, k - 1)
  }

  function FinalFive(lines: seq<string>): nat {
    if |lines| > 5 then |lines| - 5 else 0
  }

  function AtLeast(defaultWhen: int, date: Option<int>): int {
    if date.Some? && date.value > defaultWhen then date.value else defaultWhen
  }

  /** The date of the last of the final five lines that yields one, if it is after the default. */
  function ObservationDate(defaultWhen: int, description: string): (when: int)
    ensures when >= defaultWhen
  {
    var lines := Lines(description, "");
    AtLeast(defaultWhen, LastLineDate((line: string) => LineDate(line), lines, FinalFive(lines), |lines|))
  }

  /** The line that dates a placemark, or -1: the last of the final five that yields a date. That
      date counts if it is after the default. */
  lemma ObservationDateMeans(defaultWhen: int, description: string) returns (i: int)
    ensures -1 <= i < |Lines(description, "")|
    ensures i >= 0 ==> |Lines(description, "")| - i <= 5 && LineDate(Lines(description, "")[i]).Some?
    ensures forall j :: 0 <= j < |Lines(description, "")| && |Lines(description, "")| - j <= 5 && j > i ==>
              LineDate(Lines(description, "")[j]).None?
    ensures ObservationDate(defaultWhen, description) ==
            if i >= 0 && LineDate(Lines(description, "")[i]).value > defaultWhen
                then LineDate(Lines(description, "")[i]).value
            else defaultWhen
  {
    i := LastDatedLine(defaultWhen, Lines(description, ""));
  }

  lemma LastDatedLine(defaultWhen: int, lines: seq<string>) returns (i: int)
    ensures -1 <= i < |lines| && (i >= 0 ==> |lines| - i <= 5 && LineDate(lines[i]).Some?)
    ensures forall j :: 0 <= j < |lines| && |lines| - j <= 5 && j > i ==> LineDate(lines[j]).None?
    ensures AtLeast(defaultWhen, LastLineDate((line: string) => LineDate(line), lines, FinalFive(lines), |lines|)) ==
            if i >= 0 && LineDate(lines[i]).value > defaultWhen then LineDate(lines[i]).value else defaultWhen
  {
    var dateOf := (line: string) => LineDate(line);
    var date := LastLineDate(dateOf, lines, FinalFive(lines), |lines|);
    if date.Some? {
      i :| FinalFive(lines) <= i < |lines| && dateOf(lines[i]) == date
           && forall j :: i < j < |lines| ==> dateOf(lines[j]).None?;
    } else {
      i := -1;
    }
    forall j | 0 <= j < |lines| && |lines| - j <= 5 && j > i
      ensures LineDate(lines[j]).None?
    {
      assert dateOf(lines[j]).None?;
    }
  }

  /** The backward scan of observationDateFromDescription over the split lines. */
  method ScanLines(dateOf: string -> Option<int>, defaultWhen: int, lines: seq<string>) returns (when: int, found: bool)
    ensures when == AtLeast(defaultWhen, LastLineDate(dateOf, lines, FinalFive(lines), |lines|))
    ensures found <==> when > defaultWhen
  {
    var i := |lines| - 1;
    while i >= 0 && |lines| - i <= 5
      invariant FinalFive(lines) - 1 <= i < |lines|
      invariant LastLineDate(dateOf, lines, FinalFive(lines), |lines|) ==
                LastLineDate(dateOf, lines, FinalFive(lines), i + 1)
    {
      var candidate := dateOf(lines[i]);
      if candidate.Some? {
        if candidate.value > defaultWhen {
          return candidate.value, true;
        }
        return defaultWhen, false;
      }
      i := i - 1;
    }
    return defaultWhen, false;
  }

  // ---------------------------------------------------------------------------
  // Records
  // ---------------------------------------------------------------------------

  /** A placemark with the folder it stands in. */
  datatype Source = Source(folderName: string, class_: Class, place: Place)

  function SourcesOf(folderName: string, class_: Class, places: seq<Place>): seq<Source> {
    seq(|places|, i requires 0 <= i < |places| => Source(folderName, class_, places[i]))
  }

  /** The placemarks of the first folders, in document order. */
  function FolderSources(folders: seq<Folder>): seq<Source> {
    if folders == [] then []
    else
      var f := folders[|folders| - 1];
      FolderSources(folders[..|folders| - 1]) + SourcesOf(f.name, Classify(f.name), f.places)
  }

  /** Every placemark of the document, in document order. */
  function Sources(doc: Doc): seq<Source> {
    FolderSources(doc.folders) + SourcesOf(NO_FOLDER, Unknown, doc.places)
  }

  predicate Retained(src: Source) {
    src.class_ == Exists || src.class_ == Gone
  }

  /** The record of a retained placemark with usable coordinates. */
  function RecordOf(lib: Lib, source: string, defaultWhen: int, src: Source): Option<Import.Record> {
    var p := ParseLonLat(lib, src.place.coordinates);
    if !Retained(src) || p.None? || !InRange(p.value.0, p.value.1) then None
    else
      var d := src.place.description;
      Some(Import.Record(Some(ObservationDate(defaultWhen, d)),
          lib.naturalId(source, src.place.name, p.value.0, p.value.1),
                         p.value.0, p.value.1, src.class_ == Exists,
                         Traits(None, lib.medium(d), lib.message(src.folderName, d), "unknown", d)))
  }

  function Recorder(lib: Lib, source: string, defaultWhen: int): Source -> Option<Import.Record> {
    (src: Source) => RecordOf(lib, source, defaultWhen, src)
  }

  /** The record of a placemark, field by field, and exactly when there is none. */
  lemma RecordMeans(lib: Lib, source: string, defaultWhen: int, src: Source)
    ensures var p, rec := ParseLonLat(lib, src.place.coordinates), RecordOf(lib, source, defaultWhen, src);
            && (rec.None? <==>
                || (src.class_ != Exists && src.class_ != Gone)
                || p.None? || !(-90.0 <= p.value.0 <= 90.0 && -180.0 <= p.value.1 <= 180.0))
            && (rec.Some? ==>
                && rec.value.lat == p.value.0 && rec.value.lon == p.value.1
                && rec.value.externalId == lib.naturalId(source, src.place.name, p.value.0, p.value.1)
                && rec.value.exists_ == (src.class_ == Exists)
                && rec.value.when == Some(ObservationDate(defaultWhen, src.place.description))
                && rec.value.traits.message == lib.message(src.folderName, src.place.description)
                && rec.value.traits.medium == lib.medium(src.place.description)
                && rec.value.traits.description == src.place.description)
  {
  }

  function CountDiscarded(srcs: seq<Source>): nat {
    if srcs == [] then 0 else CountDiscarded(srcs[..|srcs| - 1]) + if Retained(srcs[|srcs| - 1]) then 0 else 1
  }

  function StatOf(f: Folder): FolderStat {
    FolderStat(f.name, Classify(f.name), |f.places|)
  }

  function SumCounts(stats: seq<FolderStat>): nat {
    if stats == [] then 0 else SumCounts(stats[..|stats| - 1]) + stats[|stats| - 1].count
  }

  /** What the run knows after reading srcs: the records of exactly the usable placemarks, in
      order, and every other placemark counted once. */
  ghost predicate Tallies(pick: Source -> Option<Import.Record>, srcs: seq<Source>, recs: seq<Import.Record>,
                          discarded: nat, badCoords: nat) {
    && Selects(pick, srcs, recs)
    && discarded == CountDiscarded(srcs)
    && |recs| + discarded + badCoords == |srcs|
  }

  /** The positions of the placemarks of folders that are classed neither reported nor gone. */
  function Skipped(srcs: seq<Source>): set<int> {
    set i | 0 <= i < |srcs| && (srcs[i].class_ == Discard || srcs[i].class_ == Unknown)
  }

  lemma SkippedNext(srcs: seq<Source>, src: Source)
    ensures Skipped(srcs + [src]) == if Retained(src) then Skipped(srcs) else Skipped(srcs) + {|srcs|}
    ensures |srcs| !in Skipped(srcs)
  {
    var all := srcs + [src];
    assert all[|srcs|] == src && forall i :: 0 <= i < |srcs| ==> all[i] == srcs[i];
  }

  /** These are what is counted as discarded. */
  lemma {:induction false} DiscardedMeans(srcs: seq<Source>)
    ensures CountDiscarded(srcs) == |Skipped(srcs)|
    decreases |srcs|
  {
    if srcs == [] {
    } else {
      var n := |srcs| - 1;
      DiscardedMeans(srcs[..n]);
      SkippedNext(srcs[..n], srcs[n]);
      assert srcs[..n] + [srcs[n]] == srcs;
    }
  }

  lemma TallyOne(pick: Source -> Option<Import.Record>, srcs: seq<Source>, recs: seq<Import.Record>,
                 discarded: nat, badCoords: nat, src: Source, rec: Option<Import.Record>)
    requires Tallies(pick, srcs, recs, discarded, badCoords) && rec == pick(src)
    ensures !Retained(src) && rec.None? ==> Tallies(pick, srcs + [src], recs, discarded + 1, badCoords)
    ensures Retained(src) && rec.None? ==> Tallies(pick, srcs + [src], recs, discarded, badCoords + 1)
    ensures Retained(src) && rec.Some? ==> Tallies(pick, srcs + [src], recs + [rec.value], discarded, badCoords)
  {
    SelectsOneMore(pick, srcs, recs, src);
    assert (srcs + [src])[..|srcs|] == srcs;
  }

  lemma {:induction false} TallyDiscarded(pick: Source -> Option<Import.Record>, srcs: seq<Source>,
                                          recs: seq<Import.Record>, discarded: nat, badCoords: nat, more: seq<Source>)
    requires Tallies(pick, srcs, recs, discarded, badCoords)
    requires forall i :: 0 <= i < |more| ==> !Retained(more[i]) && pick(more[i]).None?
    ensures Tallies(pick, srcs + more, recs, discarded + |more|, badCoords)
    decreases |more|
  {
    if more == [] {
      assert srcs + more == srcs;
    } else {
      var n := |more| - 1;
      TallyDiscarded(pick, srcs, recs, discarded, badCoords, more[..n]);
      var before := srcs + more[..n];
      assert srcs + more == before + [more[n]];
      TallyOne(pick, before, recs, discarded + n, badCoords, more[n], None);
    }
  }

  lemma NextOf<T>(a: seq<T>, b: seq<T>, i: nat)
    requires i < |b|
    ensures a + b[..i] + [b[i]] == a + b[..i + 1]
  {
  }

  lemma SumOfAppend(stats: seq<FolderStat>, stat: FolderStat)
    ensures SumCounts(stats + [stat]) == SumCounts(stats) + stat.count
  {
    assert (stats + [stat])[..|stats|] == stats;
  }

  lemma SourcesOfNext(folders: seq<Folder>, i: nat)
    requires i < |folders|
    ensures FolderSources(folders[..i + 1]) ==
            FolderSources(folders[..i]) + SourcesOf(folders[i].name, Classify(folders[i].name), folders[i].places)
  {
    assert folders[..i + 1][..i] == folders[..i];
  }

  /** The summary names each folder with its class and size, in order. */
  predicate Listed(stats: seq<FolderStat>, fs: seq<Folder>) {
    |stats| == |fs| && forall k :: 0 <= k < |fs| ==> stats[k] == StatOf(fs[k])
  }

  lemma ListedNext(stats: seq<FolderStat>, fs: seq<Folder>, i: nat)
    requires i < |fs| && Listed(stats, fs[..i])
    ensures Listed(stats + [FolderStat(fs[i].name, Classify(fs[i].name), |fs[i].places|)], fs[..i + 1])
  {
  }

  /** The summary and the batch under construction. */
  class Builder {
    const lib: Lib
    const source: string
    const defaultWhen: int
    var folders: seq<FolderStat>
    var discarded: nat
    var badCoords: nat
    var recs: seq<Import.Record>

    constructor (lib: Lib, source: string, defaultWhen: int)
      ensures this.lib == lib && this.source == source && this.defaultWhen == defaultWhen
      ensures folders == [] && Counts([])
    {
      this.lib, this.source, this.defaultWhen := lib, source, defaultWhen;
      folders, discarded, badCoords, recs := [], 0, 0, [];
      new;
      SelectsNothing(Recorder(lib, source, defaultWhen));
    }

    ghost predicate Holds(srcs: seq<Source>)
      reads this
    {
      Tallies(Recorder(lib, source, defaultWhen), srcs, recs, discarded, badCoords)
    }

    ghost predicate Counts(srcs: seq<Source>)
      reads this
    {
      Holds(srcs) && SumCounts(folders) == |srcs|
    }

    /** The body of the closure's loop: the record of one retained placemark, or None. */
    method Read(src: Source) returns (rec: Option<Import.Record>)
      requires Retained(src)
      ensures rec == Recorder(lib, source, defaultWhen)(src)
    {
      var p := ParseLonLat(lib, src.place.coordinates);
      if p.None? || !InRange(p.value.0, p.value.1) {
        return None;
      }
      var (lat, lon) := p.value;
      var desc := src.place.description;
      var when, _ := ScanLines((line: string) => LineDate(line), defaultWhen, Lines(desc, ""));
      rec := Some(Import.Record(Some(when), lib.naturalId(source, src.place.name, lat, lon), lat, lon,
          src.class_ == Exists,
                                Traits(None, lib.medium(desc), lib.message(src.folderName, desc), "unknown", desc)));
    }

    /** The loop of buildRecords over the folders. */
    method AddFolders(fs: seq<Folder>)
      requires Counts([]) && folders == []
      modifies this
      ensures Counts(FolderSources(fs)) && Listed(folders, fs)
    {
      for i := 0 to |fs|
        invariant Counts(FolderSources(fs[..i])) && Listed(folders, fs[..i])
      {
        var before := folders;
        Add(fs[i].name, Classify(fs[i].name), fs[i].places, FolderSources(fs[..i]));
        SourcesOfNext(fs, i);
        ListedNext(before, fs, i);
      }
      assert fs[..|fs|] == fs;
    }

    /** The closure `add` of buildRecords. */
    method Add(folderName: string, class_: Class, places: seq<Place>, ghost srcs: seq<Source>)
      requires Counts(srcs)
      modifies this
      ensures Counts(srcs + SourcesOf(folderName, class_, places))
      ensures folders == old(folders) + [FolderStat(folderName, class_, |places|)]
    {
      SumOfAppend(folders, FolderStat(folderName, class_, |places|));
      folders := folders + [FolderStat(folderName, class_, |places|)];
      if class_ == Discard || class_ == Unknown {
        TallyDiscarded(Recorder(lib, source, defaultWhen), srcs, recs, discarded, badCoords,
            SourcesOf(folderName, class_, places));
        discarded := discarded + |places|;
      } else {
        AddRetained(SourcesOf(folderName, class_, places), srcs);
      }
    }

    method AddOne(src: Source, ghost srcs: seq<Source>)
      requires Holds(srcs) && Retained(src)
      modifies `recs, `badCoords
      ensures Holds(srcs + [src])
    {
      var rec := Read(src);
      TallyOne(Recorder(lib, source, defaultWhen), srcs, recs, discarded, badCoords, src, rec);
      if rec.None? {
        badCoords := badCoords + 1;
      } else {
        recs := recs + [rec.value];
      }
    }

    method AddRetained(more: seq<Source>, ghost srcs: seq<Source>)
      requires Holds(srcs) && forall i :: 0 <= i < |more| ==> Retained(more[i])
      modifies `recs, `badCoords
      ensures Holds(srcs + more)
    {
      ghost var done := srcs;
      for i := 0 to |more|
        invariant done == srcs + more[..i] && Holds(done)
      {
        AddOne(more[i], done);
        NextOf(srcs, more, i);
        done := done + [more[i]];
      }
      assert more[..|more|] == more;
    }
  }

  /** buildRecords. Every placemark of the document is accounted for once, as a record, as
      discarded or as having bad coordinates, and the records come in document order. */
  method BuildRecords(lib: Lib, doc: Doc, source: string, defaultWhen: int)
    returns (recs: seq<Import.Record>, folders: seq<FolderStat>, discarded: nat, badCoords: nat)
    ensures Tallies(Recorder(lib, source, defaultWhen), Sources(doc), recs, discarded, badCoords)
    ensures SumCounts(folders) == |recs| + discarded + badCoords
    ensures |folders| == |doc.folders| + if doc.places == [] then 0 else 1
    ensures forall i :: 0 <= i < |doc.folders| ==>
              folders[i] == FolderStat(doc.folders[i].name, Classify(doc.folders[i].name), |doc.folders[i].places|)
    ensures doc.places != [] ==>
              folders[|doc.folders|] == FolderStat("(placemarks with no folder)", Unknown, |doc.places|)
  {
    var b := new Builder(lib, source, defaultWhen);
    b.AddFolders(doc.folders);
    if |doc.places| > 0 {
      b.Add(NO_FOLDER, Unknown, doc.places, FolderSources(doc.folders));
    } else {
      assert Sources(doc) == FolderSources(doc.folders);
    }
    recs, folders, discarded, badCoords := b.recs, b.folders, b.discarded, b.badCoords;
  }

  lemma RecordIsSound(lib: Lib, source: string, defaultWhen: int, src: Source, rec: Import.Record)
    requires Recorder(lib, source, defaultWhen)(src) == Some(rec)
    ensures InRange(rec.lat, rec.lon) && rec.when.Some? && rec.when.value >= defaultWhen
  {
  }

  /** Every record passes the CHECKs of the locations table, and is dated no earlier than the
      default. */
  lemma RecordsAreSound(lib: Lib, source: string, defaultWhen: int, srcs: seq<Source>, recs: seq<Import.Record>)
    requires Selects(Recorder(lib, source, defaultWhen), srcs, recs)
    ensures forall k :: 0 <= k < |recs| ==>
            InRange(recs[k].lat, recs[k].lon) && recs[k].when.Some? && recs[k].when.value >= defaultWhen
  {
    var from :| SelectsFrom(Recorder(lib, source, defaultWhen), srcs, recs, from);
    forall k | 0 <= k < |recs|
      ensures InRange(recs[k].lat, recs[k].lon) && recs[k].when.Some? && recs[k].when.value >= defaultWhen
    {
      RecordIsSound(lib, source, defaultWhen, srcs[from[k]], recs[k]);
    }
  }

  /** End to end: for a registered importer, no record of a built batch can make the import
      fail, whatever the database holds. */
  lemma BuiltBatchCannotFail(lib: Lib, source: string, defaultWhen: int, srcs: seq<Source>, recs: seq<Import.Record>,
                             db: Db, job: Import.Job, k: nat)
    requires Selects(Recorder(lib, source, defaultWhen), srcs, recs) && HasUser(db, job.importer)
    ensures !Import.FailsAt(db, job, recs, k)
  {
    RecordsAreSound(lib, source, defaultWhen, srcs, recs);
    Import.InRangeBatchCannotFail(db, job, recs, k);
  }
}
