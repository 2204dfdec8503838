/**
 * The administrator's view of the repository: the list of published and
 * unpublished papers, switching a paper between those two states, renaming
 * a paper (and its embedding collection), and moving its publication date.
 */
module RepoPaperList {
  import opened Wrappers
  import Text
  import Collabs
  import CollabFiles
  import opened Papers

  /** `strconv.Atoi` with its error dropped: a malformed id is read as 0. */
  function IdOrZero(s: string): int {
    match Text.Atoi(s) case Some(n) => n case None => 0
  }

  // ---------------------------------------------------------------- listing

  /** The repository shows papers whose status is exactly "published" or "unpublished". */
  predicate InRepository(p: Paper) {
    p.status == PUBLISHED || p.status == UNPUBLISHED
  }

  /** The listing order: published before unpublished, then newest `published_at` first. */
  predicate ListedBefore(a: Paper, b: Paper) {
    (a.status == PUBLISHED && b.status != PUBLISHED)
    || ((a.status == PUBLISHED) == (b.status == PUBLISHED) && a.publishedAt >= b.publishedAt)
  }

  /** The lower-cased title or author contains the lower-cased search term (no term matches all). */
  predicate Matches(p: Paper, search: string) {
    var term := Text.ToLower(search);
    term == "" || Text.Contains(Text.ToLower(p.title), term) || Text.Contains(Text.ToLower(p.author), term)
  }

  /** The repository's papers, before the search term is applied. */
  function RepositoryIds(papers: map<int, Paper>): (r: set<int>)
    ensures forall id :: id in r <==> id in papers && InRepository(papers[id])
  {
    set id | id in papers && InRepository(papers[id])
  }

  /** The rows the filtered, ordered query returns before paging: every match once, in listing order. */
  ghost predicate ListingOrder(papers: map<int, Paper>, search: string, order: seq<int>) {
    (forall i :: 0 <= i < |order| ==> order[i] in papers && InRepository(papers[order[i]]) && Matches(papers[order[i]], search))
    && (forall i, j :: 0 <= i < j < |order| ==> order[i] != order[j] && ListedBefore(papers[order[i]], papers[order[j]]))
    && (forall id :: id in papers && InRepository(papers[id]) && Matches(papers[id], search) ==> id in order)
  }

  /** A listed paper; the uploader's and the departments' details come from lookups not modelled. */
  datatype PaperRow = PaperRow(id: int, title: string, author: string, status: string, publishedAt: int)

  function RowOf(papers: map<int, Paper>, id: int): PaperRow
    requires id in papers
  {
    var p := papers[id];
    PaperRow(id, p.title, p.author, p.status, p.publishedAt)
  }

  /**
   * `HandleGetResearchPaperList`: one page (`page` default 1, `count`
   * default 10) of the matching papers in listing order; the total counts
   * the repository's papers before the search is applied.
   */
  method HandleGetResearchPaperList(papers: map<int, Paper>, pageParam: Option<string>, countParam: Option<string>,
                                    search: string, order: seq<int>)
    returns (list: seq<PaperRow>, totalResult: nat, totalPaper: nat)
    requires ListingOrder(papers, search, order)
    ensures var (lo, hi) := CollabFiles.PageBounds(|order|, CollabFiles.QueryInt(pageParam, 1),
                                                   CollabFiles.QueryInt(countParam, 10));
      |list| == hi - lo
      && forall k :: 0 <= k < |list| ==> list[k].id == order[lo + k]
    ensures forall k :: 0 <= k < |list| ==>
      list[k].id in papers && InRepository(papers[list[k].id]) && Matches(papers[list[k].id], search)
      && list[k].status == papers[list[k].id].status && list[k].title == papers[list[k].id].title
    ensures forall i, j :: 0 <= i < j < |list| ==>
      list[i].id != list[j].id && ListedBefore(papers[list[i].id], papers[list[j].id])
    ensures totalResult == |list| && totalPaper == |RepositoryIds(papers)|
  {
    var (lo, hi) := CollabFiles.PageBounds(|order|, CollabFiles.QueryInt(pageParam, 1),
                                           CollabFiles.QueryInt(countParam, 10));
    list := [];
    var k := lo;
    while k < hi
      invariant lo <= k <= hi && |list| == k - lo
      invariant forall m :: 0 <= m < |list| ==> list[m].id == order[lo + m]
      invariant forall m :: 0 <= m < |list| ==> list[m] == RowOf(papers, order[lo + m])
    {
      list := list + [RowOf(papers, order[k])];
      k := k + 1;
    }
    totalResult := |list|;
    totalPaper := |RepositoryIds(papers)|;
  }

  /** In a listing, no unpublished paper comes before a published one. */
  lemma PublishedFirst(papers: map<int, Paper>, search: string, order: seq<int>, i: int, j: int)
    requires ListingOrder(papers, search, order) && 0 <= i < j < |order|
    requires papers[order[j]].status == PUBLISHED
    ensures papers[order[i]].status == PUBLISHED
    ensures papers[order[i]].publishedAt >= papers[order[j]].publishedAt
  {
  }

  /** Without a search term the listing holds every paper of the repository. */
  lemma EmptySearchListsAll(papers: map<int, Paper>, order: seq<int>, id: int)
    requires ListingOrder(papers, "", order) && id in RepositoryIds(papers)
    ensures id in order
  {
  }

  // ---------------------------------------------------------------- status toggle

  /** Why `HandleUpdateResearchPaper` refuses, or OK: the id is given, names a paper, and the paper is in the repository. */
  function ToggleVerdict(papers: map<int, Paper>, idParam: string): (code: int)
    ensures code in {OK, BAD_REQUEST, INTERNAL_ERROR}
    ensures code == OK <==> idParam != "" && IdOrZero(idParam) in papers && InRepository(papers[IdOrZero(idParam)])
  {
    if idParam == "" then BAD_REQUEST
    else if IdOrZero(idParam) !in papers then INTERNAL_ERROR
    else if !InRepository(papers[IdOrZero(idParam)]) then BAD_REQUEST
    else OK
  }

  /** The other repository status. */
  function Toggled(status: string): (r: string)
    requires status == PUBLISHED || status == UNPUBLISHED
    ensures r == PUBLISHED || r == UNPUBLISHED
    ensures r != status
  {
    if status == PUBLISHED then UNPUBLISHED else PUBLISHED
  }

  /** `HandleUpdateResearchPaper`: the paper switches between published and unpublished. */
  method HandleUpdateResearchPaper(db: PaperDb, idParam: string) returns (code: int, newStatus: Option<string>)
    modifies db`papers
    ensures code == ToggleVerdict(old(db.papers), idParam)
    ensures code != OK ==> db.papers == old(db.papers) && newStatus.None?
    ensures code == OK ==> IdOrZero(idParam) in old(db.papers) && InRepository(old(db.papers)[IdOrZero(idParam)])
    ensures code == OK && IdOrZero(idParam) in old(db.papers) && InRepository(old(db.papers)[IdOrZero(idParam)]) ==>
      var id := IdOrZero(idParam);
      newStatus == Some(Toggled(old(db.papers)[id].status))
      && db.papers == old(db.papers)[id := old(db.papers)[id].(status := Toggled(old(db.papers)[id].status))]
  {
    code := ToggleVerdict(db.papers, idParam);
    if code != OK {
      return code, None;
    }
    var id := IdOrZero(idParam);
    var s := Toggled(db.papers[id].status);
    db.papers := db.papers[id := db.papers[id].(status := s)];
    newStatus := Some(s);
  }

  /** Toggling twice is accepted both times and restores the paper. */
  lemma ToggleTwiceRestores(papers: map<int, Paper>, idParam: string)
    requires ToggleVerdict(papers, idParam) == OK
    ensures var id := IdOrZero(idParam);
      var once := papers[id := papers[id].(status := Toggled(papers[id].status))];
      ToggleVerdict(once, idParam) == OK
      && once[id := once[id].(status := Toggled(once[id].status))] == papers
  {
  }

  // ---------------------------------------------------------------- title

  /** The papers holding a title. */
  function IdsWithTitle(papers: map<int, Paper>, title: string): set<int> {
    set id | id in papers && papers[id].title == title
  }

  /** `First` on `research_title`: the lowest paper id holding the title. */
  ghost function PaperByTitle(papers: map<int, Paper>, title: string): (r: Option<int>)
    ensures r.Some? <==> exists id :: id in papers && papers[id].title == title
    ensures r.Some? ==> r.value in papers && papers[r.value].title == title
    ensures r.Some? ==> forall id :: id in papers && papers[id].title == title ==> r.value <= id
  {
    if exists id :: id in papers && papers[id].title == title then
      var id :| id in papers && papers[id].title == title;
      var ids := IdsWithTitle(papers, title);
      assert id in ids;
      var least := Collabs.Least(ids);
      assert forall x :: x in papers && papers[x].title == title ==> x in ids;
      Some(least)
    else None
  }

  method FindByTitle(papers: map<int, Paper>, title: string) returns (r: Option<int>)
    ensures r == PaperByTitle(papers, title)
  {
    var ids := IdsWithTitle(papers, title);
    if exists id :: id in ids {
      var least := Collabs.LeastId(ids);
      return Some(least);
    }
    assert forall id :: id in papers ==> papers[id].title != title by {
      forall id | id in papers ensures papers[id].title != title {
        assert (id in ids) == (id in papers && papers[id].title == title);
      }
    }
    return None;
  }

  /**
   * Why `HandleUpdateResearchPaperTitle` refuses, or OK: the id and the new
   * title are given, the id names a paper, and the first paper holding the
   * title (`holder`), if any, is that paper.
   */
  function TitleVerdict(papers: map<int, Paper>, idParam: string, newTitle: string, holder: Option<int>): (code: int)
    ensures code == OK || code == BAD_REQUEST
    ensures code == OK <==>
      idParam != "" && newTitle != "" && IdOrZero(idParam) in papers && (holder.Some? ==> holder.value == IdOrZero(idParam))
  {
    if idParam == "" || newTitle == "" then BAD_REQUEST
    else if IdOrZero(idParam) !in papers then BAD_REQUEST
    else if holder.Some? && holder.value != IdOrZero(idParam) then BAD_REQUEST
    else OK
  }

  /** The embedding collection named after the old title takes the new one. */
  function RenameCollection(collections: set<string>, oldName: string, newName: string): (r: set<string>)
    ensures oldName in collections ==> newName in r
    ensures forall c :: c in r && c != newName ==> c in collections && c != oldName
    ensures forall c :: c in collections && c != oldName ==> c in r
  {
    if oldName in collections then collections - {oldName} + {newName} else collections
  }

  /** `HandleUpdateResearchPaperTitle`: the paper and its embedding collection are renamed. */
  method HandleUpdateResearchPaperTitle(db: PaperDb, idParam: string, newTitle: string) returns (code: int)
    modifies db`papers, db`collections
    ensures code == TitleVerdict(old(db.papers), idParam, newTitle, PaperByTitle(old(db.papers), newTitle))
    ensures code != OK ==> db.papers == old(db.papers) && db.collections == old(db.collections)
    ensures code == OK ==> IdOrZero(idParam) in old(db.papers)
    ensures code == OK && IdOrZero(idParam) in old(db.papers) ==>
      var id := IdOrZero(idParam);
      db.papers == old(db.papers)[id := old(db.papers)[id].(title := newTitle)]
      && db.collections == RenameCollection(old(db.collections), old(db.papers)[id].title, newTitle)
  {
    if idParam == "" || newTitle == "" || IdOrZero(idParam) !in db.papers {
      return BAD_REQUEST;
    }
    var holder := FindByTitle(db.papers, newTitle);
    code := TitleVerdict(db.papers, idParam, newTitle, holder);
    if code != OK {
      return;
    }
    var id := IdOrZero(idParam);
    db.collections := RenameCollection(db.collections, db.papers[id].title, newTitle);
    db.papers := db.papers[id := db.papers[id].(title := newTitle)];
  }

  /** No two papers share a title. */
  ghost predicate UniqueTitles(papers: map<int, Paper>) {
    forall a, b :: a in papers && b in papers && a != b ==> papers[a].title != papers[b].title
  }

  /**
   * While titles are unique, the first-holder check refuses exactly a title
   * held by another paper, and an accepted rename keeps titles unique.
   */
  lemma TitleCheckSound(papers: map<int, Paper>, idParam: string, newTitle: string)
    requires UniqueTitles(papers) && idParam != "" && newTitle != "" && IdOrZero(idParam) in papers
    ensures TitleVerdict(papers, idParam, newTitle, PaperByTitle(papers, newTitle)) == OK
      <==> !TitleTaken(papers, newTitle, Some(IdOrZero(idParam)))
    ensures TitleVerdict(papers, idParam, newTitle, PaperByTitle(papers, newTitle)) == OK ==>
      UniqueTitles(papers[IdOrZero(idParam) := papers[IdOrZero(idParam)].(title := newTitle)])
  {
  }

  // ---------------------------------------------------------------- date

  /** A calendar date. */
  datatype Date = Date(year: int, month: int, day: int)

  predicate IsLeap(y: int) {
    y % 4 == 0 && (y % 100 != 0 || y % 400 == 0)
  }

  /** The number of days of a month (Go's `daysIn`). */
  function DaysIn(m: int, y: int): (r: int)
    requires 1 <= m <= 12
    ensures 28 <= r <= 31
  {
    if m == 2 then (if IsLeap(y) then 29 else 28)
    else if m == 4 || m == 6 || m == 9 || m == 11 then 30
    else 31
  }

  /** A date `time.Parse` accepts with the layout "2006-01-02". */
  predicate ValidDate(dt: Date) {
    0 <= dt.year <= 9999 && 1 <= dt.month <= 12 && 1 <= dt.day <= DaysIn(dt.month, dt.year)
  }

  predicate IsDigit(c: char) {
    '0' <= c <= '9'
  }

  function DigitValue(c: char): int
    requires IsDigit(c)
  {
    c as int - '0' as int
  }

  function DigitChar(n: int): (c: char)
    requires 0 <= n <= 9
    ensures IsDigit(c) && DigitValue(c) == n
  {
    ('0' as int + n) as char
  }

  /** The value of two decimal digits. */
  function Two(a: char, b: char): int
    requires IsDigit(a) && IsDigit(b)
  {
    DigitValue(a) * 10 + DigitValue(b)
  }

  /** The value of four decimal digits. */
  function Four(a: char, b: char, c: char, d: char): int
    requires IsDigit(a) && IsDigit(b) && IsDigit(c) && IsDigit(d)
  {
    Two(a, b) * 100 + Two(c, d)
  }

  /**
   * `time.Parse("2006-01-02", s)`: four digits of year, a dash, two digits
   * of month from 01 to 12, a dash, two digits of a day that month has, and
   * nothing else.
   */
  function ParseDate(s: string): (r: Option<Date>)
    ensures r.Some? ==> ValidDate(r.value)
  {
    if |s| != 10 || s[4] != '-' || s[7] != '-' then None
    else if !(IsDigit(s[0]) && IsDigit(s[1]) && IsDigit(s[2]) && IsDigit(s[3])) then None
    else if !(IsDigit(s[5]) && IsDigit(s[6]) && IsDigit(s[8]) && IsDigit(s[9])) then None
    else
      var y := Four(s[0], s[1], s[2], s[3]);
      var m := Two(s[5], s[6]);
      var d := Two(s[8], s[9]);
      if 1 <= m <= 12 && 1 <= d <= DaysIn(m, y) then Some(Date(y, m, d)) else None
  }

  /** The two digits of a number below 100. */
  function TwoDigits(n: int): (r: (char, char))
    requires 0 <= n <= 99
    ensures IsDigit(r.0) && IsDigit(r.1)
  {
    (DigitChar(n / 10), DigitChar(n % 10))
  }

  /** The date written with the layout "2006-01-02". */
  function FormatDate(dt: Date): (s: string)
    requires ValidDate(dt)
    ensures |s| == 10
  {
    var (y1, y2) := TwoDigits(dt.year / 100);
    var (y3, y4) := TwoDigits(dt.year % 100);
    var (m1, m2) := TwoDigits(dt.month);
    var (d1, d2) := TwoDigits(dt.day);
    [y1, y2, y3, y4, '-', m1, m2, '-', d1, d2]
  }

  /** Two digits written and read back give the number. */
  lemma TwoDigitsRead(n: int)
    requires 0 <= n <= 99
    ensures Two(TwoDigits(n).0, TwoDigits(n).1) == n
  {
  }

  /** Two digits read and written back give the digits. */
  lemma TwoDigitsWrite(a: char, b: char)
    requires IsDigit(a) && IsDigit(b)
    ensures TwoDigits(Two(a, b)) == (a, b)
  {
    var n := Two(a, b);
    assert n / 10 == DigitValue(a) && n % 10 == DigitValue(b);
  }

  /** Writing a valid date and parsing it back gives the date. */
  lemma ParseFormat(dt: Date)
    requires ValidDate(dt)
    ensures ParseDate(FormatDate(dt)) == Some(dt)
  {
    TwoDigitsRead(dt.year / 100);
    TwoDigitsRead(dt.year % 100);
    TwoDigitsRead(dt.month);
    TwoDigitsRead(dt.day);
    var s := FormatDate(dt);
    assert Four(s[0], s[1], s[2], s[3]) == dt.year;
  }

  /** A string the parser accepts is the written form of what it parsed: no two strings give one date. */
  lemma FormatParse(s: string)
    requires ParseDate(s).Some?
    ensures FormatDate(ParseDate(s).value) == s
  {
    var dt := ParseDate(s).value;
    TwoDigitsWrite(s[0], s[1]);
    TwoDigitsWrite(s[2], s[3]);
    TwoDigitsWrite(s[5], s[6]);
    TwoDigitsWrite(s[8], s[9]);
    var hi, lo := Two(s[0], s[1]), Two(s[2], s[3]);
    assert dt.year / 100 == hi && dt.year % 100 == lo;
    var t := FormatDate(dt);
    assert forall k :: 0 <= k < 10 ==> t[k] == s[k];
  }

  /** Days in the months of a year before month `m`. */
  function DaysBeforeMonth(m: int, y: int): int
    requires 1 <= m <= 12
  {
    var leap := if IsLeap(y) then 1 else 0;
    if m == 1 then 0 else if m == 2 then 31 else if m == 3 then 59 + leap else if m == 4 then 90 + leap
    else if m == 5 then 120 + leap else if m == 6 then 151 + leap else if m == 7 then 181 + leap
    else if m == 8 then 212 + leap else if m == 9 then 243 + leap else if m == 10 then 273 + leap
    else if m == 11 then 304 + leap else 334 + leap
  }

  function YearLength(y: int): int {
    if IsLeap(y) then 366 else 365
  }

  /** Days from 0000-01-01 to the first day of year `y`, leap years counted the Gregorian way. */
  function DaysBeforeYear(y: nat): int {
    365 * y + (y + 3) / 4 - (y + 99) / 100 + (y + 399) / 400
  }

  /** Days from 0000-01-01 to 1970-01-01. */
  const EPOCH_DAY: int := 719528

  /** The day of a date counted from 1970-01-01. */
  function DayNumber(dt: Date): int
    requires ValidDate(dt)
  {
    DaysBeforeYear(dt.year) + DaysBeforeMonth(dt.month, dt.year) + dt.day - 1 - EPOCH_DAY
  }

  /** The closed form counts each year with its own length, and the epoch is 1970-01-01. */
  lemma DaysBeforeYearStep(y: nat)
    ensures DaysBeforeYear(y + 1) == DaysBeforeYear(y) + YearLength(y)
    ensures DaysBeforeYear(1970) == EPOCH_DAY
  {
    assert (y + 4) / 4 == (y + 3) / 4 + (if y % 4 == 0 then 1 else 0);
    assert (y + 100) / 100 == (y + 99) / 100 + (if y % 100 == 0 then 1 else 0);
    assert (y + 400) / 400 == (y + 399) / 400 + (if y % 400 == 0 then 1 else 0);
  }

  /** Each month follows the previous without gap or overlap. */
  lemma MonthStep(m: int, y: int)
    requires 1 <= m < 12
    ensures DaysBeforeMonth(m + 1, y) == DaysBeforeMonth(m, y) + DaysIn(m, y)
    ensures DaysBeforeMonth(12, y) + DaysIn(12, y) == YearLength(y)
  {
  }

  /** Later dates have later day numbers: two valid dates share a day number only if they are equal. */
  lemma DayNumberOrdered(a: Date, b: Date)
    requires ValidDate(a) && ValidDate(b)
    requires a.year < b.year || (a.year == b.year && (a.month < b.month || (a.month == b.month && a.day < b.day)))
    ensures DayNumber(a) < DayNumber(b)
  {
    if a.year < b.year {
      MonthsWithinYear(a);
      YearsAscend(a.year + 1, b.year);
      DaysBeforeYearStep(a.year);
    } else if a.month < b.month {
      MonthsAscend(a.month + 1, b.month, a.year);
      MonthStep(a.month, a.year);
    }
  }

  /** A date's day within its year falls before the year's end. */
  lemma MonthsWithinYear(dt: Date)
    requires ValidDate(dt)
    ensures DaysBeforeMonth(dt.month, dt.year) + dt.day <= YearLength(dt.year)
  {
  }

  lemma {:induction false} YearsAscend(y1: nat, y2: nat)
    requires y1 <= y2
    ensures DaysBeforeYear(y1) <= DaysBeforeYear(y2)
    decreases y2 - y1
  {
    if y1 < y2 {
      DaysBeforeYearStep(y1);
      YearsAscend(y1 + 1, y2);
    }
  }

  lemma MonthsAscend(m1: int, m2: int, y: int)
    requires 1 <= m1 <= m2 <= 12
    ensures DaysBeforeMonth(m1, y) <= DaysBeforeMonth(m2, y)
  {
  }

  const SECONDS_PER_DAY: int := 86400

  /**
   * The new `published_at`: the chosen date at the current local time of
   * day (to the second), in a zone `zone` seconds east of UTC.
   */
  function PublishedAtFor(dt: Date, now: int, zone: int): int
    requires ValidDate(dt)
  {
    DayNumber(dt) * SECONDS_PER_DAY + (now + zone) % SECONDS_PER_DAY - zone
  }

  /** The stored time is on the chosen local day, at the local time of day of the request. */
  lemma PublishedAtForSpec(dt: Date, now: int, zone: int)
    requires ValidDate(dt)
    ensures (PublishedAtFor(dt, now, zone) + zone) / SECONDS_PER_DAY == DayNumber(dt)
    ensures (PublishedAtFor(dt, now, zone) + zone) % SECONDS_PER_DAY == (now + zone) % SECONDS_PER_DAY
  {
    var r := (now + zone) % SECONDS_PER_DAY;
    assert PublishedAtFor(dt, now, zone) + zone == DayNumber(dt) * SECONDS_PER_DAY + r;
  }

  /** Why `HandleUpdateResearchPaperDate` refuses, or OK: the id and a well-formed date are given. */
  function DateVerdict(idParam: string, dateParam: string): (code: int)
    ensures code == OK || code == BAD_REQUEST
    ensures code == OK <==> idParam != "" && dateParam != "" && ParseDate(dateParam).Some?
  {
    if idParam == "" || dateParam == "" || ParseDate(dateParam).None? then BAD_REQUEST else OK
  }

  /**
   * `HandleUpdateResearchPaperDate`: the paper's `published_at` moves to
   * the chosen date at the current time of day.  An id naming no paper
   * updates nothing and is still answered OK.
   */
  method HandleUpdateResearchPaperDate(db: PaperDb, idParam: string, dateParam: string, now: int, zone: int)
    returns (code: int)
    modifies db`papers
    ensures code == DateVerdict(idParam, dateParam)
    ensures code != OK || IdOrZero(idParam) !in old(db.papers) ==> db.papers == old(db.papers)
    ensures code == OK && IdOrZero(idParam) in old(db.papers) ==>
      var id := IdOrZero(idParam);
      db.papers == old(db.papers)[id := old(db.papers)[id].(publishedAt := PublishedAtFor(ParseDate(dateParam).value, now, zone))]
  {
    code := DateVerdict(idParam, dateParam);
    if code != OK {
      return;
    }
    var id := IdOrZero(idParam);
    if id in db.papers {
      var at := PublishedAtFor(ParseDate(dateParam).value, now, zone);
      db.papers := db.papers[id := db.papers[id].(publishedAt := at)];
    }
  }
}
