// The availability calendar of a listing (web/src/components/AvailabilityCalendar.jsx):
// booked ranges are expanded into a set of day keys, and months are laid out in
// Monday-first grids whose cells are compared with that set and with today's key.
module AvailabilityCalendar {
  import opened Text
  import opened EcmaDate

  // ---------- Booked days ----------

  // A booking as the API reports it: YYYY-MM-DD strings, check-out day free.
  datatype BookedRange = BookedRange(checkIn: string, checkOut: string)

  predicate Occupies(r: BookedRange, day: int) {
    var lo, hi := ParseDay(r.checkIn), ParseDay(r.checkOut);
    lo.Some? && hi.Some? && lo.value <= day < hi.value
  }

  ghost predicate BookedOn(booked: seq<BookedRange>, day: int) {
    exists i :: 0 <= i < |booked| && Occupies(booked[i], day)
  }

  function Nights(r: BookedRange): nat {
    var lo, hi := ParseDay(r.checkIn), ParseDay(r.checkOut);
    if lo.Some? && hi.Some? && lo.value < hi.value then hi.value - lo.value else 0
  }

  function TotalNights(booked: seq<BookedRange>): nat {
    if booked == [] then 0 else TotalNights(booked[..|booked| - 1]) + Nights(booked[|booked| - 1])
  }

  predicate Overlap(a: BookedRange, b: BookedRange) {
    && Nights(a) > 0 && Nights(b) > 0
    && ParseDay(a.checkIn).value < ParseDay(b.checkOut).value
    && ParseDay(b.checkIn).value < ParseDay(a.checkOut).value
  }

  predicate PairwiseDisjoint(booked: seq<BookedRange>) {
    forall i, j :: 0 <= i < j < |booked| ==> !Overlap(booked[i], booked[j])
  }

  function SpanKeys(lo: int, hi: int): set<string>
    decreases hi - lo
  {
    if lo < hi then SpanKeys(lo, hi - 1) + {Key(hi - 1)} else {}
  }

  function RangeKeys(r: BookedRange): set<string> {
    if Nights(r) == 0 then {} else SpanKeys(ParseDay(r.checkIn).value, ParseDay(r.checkOut).value)
  }

  function BookedKeys(booked: seq<BookedRange>): set<string> {
    if booked == [] then {} else BookedKeys(booked[..|booked| - 1]) + RangeKeys(booked[|booked| - 1])
  }

  // new Date(`${s}T00:00:00Z`)
  function Midnight(s: string): Time {
    match ParseDay(s)
    case None => None
    case Some(day) => TimeClip(MakeDate(day, 0))
  }

  // d < end on dates: NaN compares false.
  predicate Earlier(d: Time, end: Time) { d.Some? && end.Some? && d.value < end.value }

  // The days of the years 0 to 9999.
  lemma FourDigitDays(day: int)
    ensures YearOf(day) < 0 <==> day < -719528
    ensures YearOf(day) <= 9999 <==> day < 2932897
  {
    hide YearOf;
    YearFromDay(day, 0);
    YearFromDay(day, 10000);
  }

  lemma MidnightOfDay(s: string)
    ensures var p := ParseDay(s);
            if p.None? then Midnight(s) == None
            else -719528 <= p.value < 2932897 && Midnight(s) == Some(p.value * MS_PER_DAY)
  {
    KeyOfParseDay(s);
    if ParseDay(s).Some? { FourDigitDays(ParseDay(s).value); }
  }

  method BuildBookedSet(booked: seq<BookedRange>) returns (keys: set<string>)
    ensures keys == BookedKeys(booked)
  {
    hide RangeKeys;
    keys := {};
    for k := 0 to |booked|
      invariant keys == BookedKeys(booked[..k])
    {
      keys := AddRange(keys, booked[k]);
      assert booked[..k + 1][..k] == booked[..k];
    }
    assert booked[..|booked|] == booked;
  }

  lemma RollOver(day: int)
    requires -719528 <= day < 2932897
    ensures Day(day * MS_PER_DAY) == day
    ensures SetUTCDate(Some(day * MS_PER_DAY), CivilOf(day).date + 1) == Some((day + 1) * MS_PER_DAY)
  {
    hide CivilOf, SetUTCDate;
    SetUTCDateAdvances(day * MS_PER_DAY);
  }

  // The inner loop: one booking's nights, by repeated date roll-over.
  method AddRange(before: set<string>, r: BookedRange) returns (keys: set<string>)
    ensures keys == before + RangeKeys(r)
  {
    hide Key, CivilOf, YearOf, ParseDay, SetUTCDate, Midnight, Day;
    MidnightOfDay(r.checkIn);
    MidnightOfDay(r.checkOut);
    keys := before;
    var start := Midnight(r.checkIn);
    var end := Midnight(r.checkOut);
    var d := start;
    if !Earlier(d, end) { return; }
    ghost var lo, hi := ParseDay(r.checkIn).value, ParseDay(r.checkOut).value;
    ghost var day := lo;
    while Earlier(d, end)
      invariant d == Some(day * MS_PER_DAY) && lo <= day <= hi
      invariant keys == before + SpanKeys(lo, day)
      decreases hi - day
    {
      RollOver(day);
      keys := keys + {Key(Day(d.value))};
      d := SetUTCDate(d, CivilOf(Day(d.value)).date + 1);
      day := day + 1;
    }
  }

  lemma {:induction false} SpanKeysMembers(lo: int, hi: int, key: string)
    ensures key in SpanKeys(lo, hi) <==> exists d :: lo <= d < hi && Key(d) == key
    decreases hi - lo
  {
    hide Key;
    if lo < hi {
      SpanKeysMembers(lo, hi - 1, key);
    }
  }

  lemma RangeKeysMembers(r: BookedRange, key: string)
    ensures key in RangeKeys(r) <==> exists d :: Occupies(r, d) && Key(d) == key
  {
    if Nights(r) != 0 {
      SpanKeysMembers(ParseDay(r.checkIn).value, ParseDay(r.checkOut).value, key);
      if key in RangeKeys(r) {
        var d :| ParseDay(r.checkIn).value <= d < ParseDay(r.checkOut).value && Key(d) == key;
        assert Occupies(r, d);
      }
    }
  }

  lemma {:induction false} BookedKeysMembers(booked: seq<BookedRange>, key: string)
    ensures key in BookedKeys(booked) <==> exists d :: BookedOn(booked, d) && Key(d) == key
  {
    hide Key, CivilOf, DayOf, YearOf, ParseDay, RangeKeys, Occupies;
    if booked != [] {
      var n := |booked| - 1;
      BookedKeysMembers(booked[..n], key);
      RangeKeysMembers(booked[n], key);
      forall d | BookedOn(booked[..n], d) ensures BookedOn(booked, d) {
        var i :| 0 <= i < n && Occupies(booked[..n][i], d);
        assert Occupies(booked[i], d);
      }
      forall d | BookedOn(booked, d) ensures BookedOn(booked[..n], d) || Occupies(booked[n], d) {
        var i :| 0 <= i < |booked| && Occupies(booked[i], d);
        if i < n { assert Occupies(booked[..n][i], d); }
      }
    }
  }

  lemma OccupiedDaysHaveFourDigitYears(r: BookedRange, d: int)
    requires Occupies(r, d)
    ensures FourDigitYear(d)
  {
    MidnightOfDay(r.checkIn);
    MidnightOfDay(r.checkOut);
    FourDigitDays(ParseDay(r.checkIn).value);
    FourDigitDays(ParseDay(r.checkOut).value);
    FourDigitDays(d);
  }

  // A day's key is in the booked set exactly when some booking occupies that day:
  // no other day, in whatever year, ever produces a booked key.
  lemma KeyIsBookedIff(booked: seq<BookedRange>, day: int)
    ensures Key(day) in BookedKeys(booked) <==> BookedOn(booked, day)
  {
    BookedKeysMembers(booked, Key(day));
    if Key(day) in BookedKeys(booked) {
      var d :| BookedOn(booked, d) && Key(d) == Key(day);
      var i :| 0 <= i < |booked| && Occupies(booked[i], d);
      OccupiedDaysHaveFourDigitYears(booked[i], d);
      if FourDigitYear(day) { KeyOrder(d, day); } else { KeyOutsideFourDigitYears(day, d); }
    }
  }

  lemma {:induction false} SpanKeysSize(lo: int, hi: int)
    requires lo <= hi && (lo < hi ==> FourDigitYear(lo) && FourDigitYear(hi - 1))
    ensures |SpanKeys(lo, hi)| == hi - lo
    decreases hi - lo
  {
    hide Key;
    if lo < hi {
      FourDigitDays(lo);
      FourDigitDays(hi - 1);
      FourDigitDays(hi - 2);
      SpanKeysSize(lo, hi - 1);
      SpanKeysMembers(lo, hi - 1, Key(hi - 1));
      forall d | lo <= d < hi - 1 ensures Key(d) != Key(hi - 1) {
        FourDigitDays(d);
        KeyOrder(d, hi - 1);
      }
    }
  }

  lemma RangeKeysSize(r: BookedRange)
    ensures |RangeKeys(r)| == Nights(r)
  {
    if Nights(r) != 0 {
      OccupiedDaysHaveFourDigitYears(r, ParseDay(r.checkIn).value);
      OccupiedDaysHaveFourDigitYears(r, ParseDay(r.checkOut).value - 1);
      SpanKeysSize(ParseDay(r.checkIn).value, ParseDay(r.checkOut).value);
    }
  }

  // Two bookings share no key exactly when their half-open ranges do not overlap.
  lemma SharedKeyIffOverlap(a: BookedRange, b: BookedRange)
    ensures RangeKeys(a) !! RangeKeys(b) <==> !Overlap(a, b)
  {
    if Overlap(a, b) {
      var lo := ParseDay(a.checkIn).value;
      var d := if lo < ParseDay(b.checkIn).value then ParseDay(b.checkIn).value else lo;
      assert Occupies(a, d) && Occupies(b, d);
      RangeKeysMembers(a, Key(d));
      RangeKeysMembers(b, Key(d));
      assert Key(d) in RangeKeys(a) * RangeKeys(b);
    } else {
      forall key | key in RangeKeys(a) && key in RangeKeys(b) ensures false {
        RangeKeysMembers(a, key);
        RangeKeysMembers(b, key);
        var d :| Occupies(a, d) && Key(d) == key;
        var e :| Occupies(b, e) && Key(e) == key;
        OccupiedDaysHaveFourDigitYears(a, d);
        OccupiedDaysHaveFourDigitYears(b, e);
        KeyOrder(d, e);
      }
    }
  }

  lemma {:induction false} BookedKeysUnion(booked: seq<BookedRange>, key: string)
    ensures key in BookedKeys(booked) <==> exists i :: 0 <= i < |booked| && key in RangeKeys(booked[i])
  {
    hide Key, CivilOf, DayOf, YearOf, RangeKeys;
    if booked != [] {
      var n := |booked| - 1;
      BookedKeysUnion(booked[..n], key);
      if key in BookedKeys(booked[..n]) {
        var i :| 0 <= i < n && key in RangeKeys(booked[..n][i]);
        assert key in RangeKeys(booked[i]);
      }
      if i :| 0 <= i < |booked| && key in RangeKeys(booked[i]) {
        if i < n { assert key in RangeKeys(booked[..n][i]); }
      }
    }
  }

  // The booked set never has more keys than there are nights, and it has exactly that
  // many when, and only when, no two bookings overlap.
  lemma {:induction false} BookedSetSize(booked: seq<BookedRange>)
    ensures |BookedKeys(booked)| <= TotalNights(booked)
    ensures |BookedKeys(booked)| == TotalNights(booked) <==> PairwiseDisjoint(booked)
  {
    hide Key, CivilOf, DayOf, YearOf, ParseDay, RangeKeys, Overlap, Nights;
    if booked != [] {
      var n := |booked| - 1;
      var init, last := booked[..n], booked[n];
      BookedSetSize(init);
      RangeKeysSize(last);
      var a, b := BookedKeys(init), RangeKeys(last);
      assert |a + b| + |a * b| == |a| + |b|;
      assert PairwiseDisjoint(init) <==> forall i, j :: 0 <= i < j < n ==> !Overlap(booked[i], booked[j]);
      if forall i :: 0 <= i < n ==> !Overlap(booked[i], last) {
        forall key | key in a && key in b ensures false {
          BookedKeysUnion(init, key);
          var i :| 0 <= i < n && key in RangeKeys(init[i]);
          SharedKeyIffOverlap(booked[i], last);
        }
        assert a * b == {};
      } else {
        var i :| 0 <= i < n && Overlap(booked[i], last);
        SharedKeyIffOverlap(booked[i], last);
        var key :| key in RangeKeys(booked[i]) && key in b;
        assert key in RangeKeys(init[i]);
        BookedKeysUnion(init, key);
        assert key in a * b;
        assert |a * b| > 0;
      }
    }
  }

  // ---------- Month grids ----------

  datatype Cell = Blank | DayCell(day: int, key: string, booked: bool, past: bool)

  // Monday is 0.
  function MondayFirst(day: int): (w: int)
    ensures 0 <= w < 7
  {
    (WeekDay(day) + 6) % 7
  }

  function CellFor(date: int, key: string, bookedSet: set<string>, todayKey: string): Cell {
    DayCell(date, key, key in bookedSet, Less(key, todayKey))
  }

  // The grid of a month of `length` days starting on day `first`.
  function MonthGrid(first: int, length: nat, bookedSet: set<string>, todayKey: string): seq<Cell> {
    seq(MondayFirst(first), i => Blank) + DayCells(first, length, bookedSet, todayKey)
  }

  function DayCells(first: int, length: nat, bookedSet: set<string>, todayKey: string): seq<Cell> {
    if length == 0 then []
    else
      DayCells(first, length - 1, bookedSet, todayKey) + [CellFor(length, Key(first + length - 1), bookedSet, todayKey)]
  }

  function FirstDay(year: int, month: int): int { MakeDay(year, month, 1) }

  function Length(year: int, month: int): nat { MonthLength(year + month / 12, month % 12) }

  function Blanks(first: Time): seq<Cell> {
    if first.None? then [] else seq(MondayFirst(Day(first.value)), i => Blank)
  }

  // What Month renders, None standing for the RangeError that toISOString throws on an
  // invalid date: outside the range of time values the cells are missing or it throws.
  function RenderedMonth(year: int, month: int, bookedSet: set<string>, todayKey: string): Option<seq<Cell>> {
    var shown := MakeFullYear(year);
    if UTC(year, month + 1, 0).None? then Some(Blanks(UTC(year, month, 1)))
    else if UTC(year, month, 1).None? then None
    else Some(MonthGrid(FirstDay(shown, month), Length(shown, month), bookedSet, todayKey))
  }

  lemma UTCInMonth(year: int, month: int, date: int)
    requires 1 <= date <= Length(MakeFullYear(year), month)
    ensures var first := FirstDay(MakeFullYear(year), month);
            && UTC(year, month, date) == TimeClip((first + date - 1) * MS_PER_DAY)
            && UTC(year, month + 1, 0) == TimeClip((first + Length(MakeFullYear(year), month) - 1) * MS_PER_DAY)
  {
    DayZeroIsLastDay(MakeFullYear(year), month);
  }

  method RenderMonth(year: int, month: int, bookedSet: set<string>, todayKey: string) returns (r: Option<seq<Cell>>)
    ensures r == RenderedMonth(year, month, bookedSet, todayKey)
  {
    hide Key, CivilOf, DayOf, YearOf, MakeDay, WeekDay;
    var first := UTC(year, month, 1);
    var last := UTC(year, month + 1, 0);
    ghost var firstDay, length := FirstDay(MakeFullYear(year), month), Length(MakeFullYear(year), month);
    UTCInMonth(year, month, 1);
    var cells: seq<Cell> := [];
    if first.Some? {
      var offset := (WeekDay(Day(first.value)) + 6) % 7;
      for i := 0 to offset
        invariant cells == seq(i, _ => Blank)
      {
        cells := cells + [Blank];
      }
    }
    if last.Some? {
      DayZeroIsLastDay(MakeFullYear(year), month);
      var daysInMonth := CivilOf(Day(last.value)).date;
      ghost var blanks := cells;
      var day := 1;
      while day <= daysInMonth
        invariant 1 <= day <= daysInMonth + 1 && daysInMonth == length
        invariant day > 1 ==> first.Some?
        invariant cells == blanks + DayCells(firstDay, day - 1, bookedSet, todayKey)
      {
        UTCInMonth(year, month, day);
        var d := UTC(year, month, day);
        if d.None? { return None; }
        var key := Key(Day(d.value));
        cells := cells + [DayCell(day, key, key in bookedSet, Less(key, todayKey))];
        day := day + 1;
      }
    }
    return Some(cells);
  }

  // Column 0 holds Mondays: weekday 1, Sunday being 0.
  lemma ColumnsStartOnMonday(day: int)
    ensures WeekDay(day) == (MondayFirst(day) + 1) % 7
  {
  }

  // The grid of a civil month shows every date of that month once, in the column of its
  // weekday, Mondays first, and blanks before them; a cell is booked exactly when a booking
  // occupies that day, and past exactly when that day precedes today.
  lemma GridMeaning(y: int, m: int, booked: seq<BookedRange>, today: int, date: int)
    requires 0 <= m < 12 && y <= 9999 && FourDigitYear(today)
    requires 1 <= date <= MonthLength(y, m)
    ensures var first := DayOf(Civil(y, m, 1));
            var grid := MonthGrid(first, MonthLength(y, m), BookedKeys(booked), Key(today));
            var day := first + date - 1;
            var column := MondayFirst(first) + date - 1;
            && |grid| == MondayFirst(first) + MonthLength(y, m)
            && CivilOf(day) == Civil(y, m, date)
            && column % 7 == MondayFirst(day) && WeekDay(day) == (column + 1) % 7
            && (forall k :: 0 <= k < MondayFirst(first) ==> grid[k] == Blank)
            && grid[column] == DayCell(date, Key(day), BookedOn(booked, day), day < today)
  {
    hide Key, CivilOf, DayOf, YearOf, WeekDay, BookedKeys, BookedOn, Less, MonthLength, MonthGrid, MondayFirst;
    var first := DayOf(Civil(y, m, 1));
    FirstOfMonth(y, m, date);
    ColumnLaw(first, date - 1);
    ColumnOfWeekDay(MondayFirst(first) + date - 1, first + date - 1);
    GridCell(first, MonthLength(y, m), BookedKeys(booked), Key(today), date);
    KeyIsBookedIff(booked, first + date - 1);
    PastIff(first + date - 1, today);
    CivilYear(first + date - 1);
  }

  lemma FirstOfMonth(y: int, m: int, date: int)
    requires 0 <= m < 12 && 1 <= date <= MonthLength(y, m)
    ensures CivilOf(DayOf(Civil(y, m, 1)) + date - 1) == Civil(y, m, date)
  {
    hide CivilOf, DayFromYear, MonthStart;
    CivilOfDayOf(Civil(y, m, date));
  }

  lemma ColumnLaw(first: int, k: int)
    ensures (MondayFirst(first) + k) % 7 == MondayFirst(first + k)
  {
  }

  lemma ColumnOfWeekDay(column: int, day: int)
    requires column % 7 == MondayFirst(day)
    ensures WeekDay(day) == (column + 1) % 7
  {
    hide MondayFirst, WeekDay;
    ColumnsStartOnMonday(day);
    assert (column + 1) % 7 == (column % 7 + 1) % 7;
  }

  lemma GridCell(first: int, length: nat, keys: set<string>, todayKey: string, date: int)
    requires 1 <= date <= length
    ensures var grid := MonthGrid(first, length, keys, todayKey);
            && |grid| == MondayFirst(first) + length
            && (forall k :: 0 <= k < MondayFirst(first) ==> grid[k] == Blank)
            && grid[MondayFirst(first) + date - 1] == CellFor(date, Key(first + date - 1), keys, todayKey)
  {
    hide Key, WeekDay;
    DayCellsAt(first, length, keys, todayKey, date);
  }

  lemma {:induction false} DayCellsAt(first: int, length: nat, keys: set<string>, todayKey: string, date: int)
    requires 1 <= date <= length
    ensures var cells := DayCells(first, length, keys, todayKey);
            |cells| == length && cells[date - 1] == CellFor(date, Key(first + date - 1), keys, todayKey)
  {
    hide Key;
    if length > 1 { DayCellsAt(first, length - 1, keys, todayKey, if date < length then date else 1); }
  }

  // The past flag is right for a day exactly when its year does not exceed 9999.
  lemma PastIff(day: int, today: int)
    requires FourDigitYear(today)
    ensures (Less(Key(day), Key(today)) <==> day < today) <==> YearOf(day) <= 9999
  {
    hide Key, Less, YearOf;
    FourDigitDays(day);
    FourDigitDays(today);
    if FourDigitYear(day) {
      KeyOrder(day, today);
    } else {
      KeyOutsideFourDigitYears(day, today);
    }
  }

  // Consecutive months follow on: a month starts in the column after the last day of
  // the month before, for any year and any month index.
  lemma OffsetsChain(year: int, month: int)
    ensures FirstDay(year, month + 1) == FirstDay(year, month) + Length(year, month)
    ensures MondayFirst(FirstDay(year, month + 1)) == (MondayFirst(FirstDay(year, month)) + Length(year, month)) % 7
  {
    hide MondayFirst, MonthLength, MakeDay, CivilOf;
    DayZeroIsLastDay(year, month);
    DateShiftsDay(year, month, Length(year, month));
    DateShiftsDay(year, month + 1, 0);
    ColumnLaw(FirstDay(year, month), Length(year, month));
  }

  lemma DateShiftsDay(year: int, month: int, date: int)
    ensures MakeDay(year, month, date) == MakeDay(year, month, 1) + date - 1
  {
    hide DayOf;
  }

  // Month lays out the month it was asked for exactly when the year is not one of the
  // years 0 to 99 that Date.UTC moves into the twentieth century.
  lemma LayoutRightIff(year: int, month: int)
    ensures && MondayFirst(FirstDay(MakeFullYear(year), month)) == MondayFirst(FirstDay(year, month))
            && Length(MakeFullYear(year), month) == Length(year, month)
       <==> !(0 <= year <= 99)
  {
    hide MakeDay, WeekDay;
    MakeFullYearMovesWeekDay(year, month);
  }

  // For those years it lays out the month of the year 1900 later.
  lemma ShownInTwentiethCentury(year: int, month: int)
    requires 0 <= year <= 99
    ensures CivilOf(FirstDay(MakeFullYear(year), month)) == Civil(1900 + year + month / 12, month % 12, 1)
    ensures Length(MakeFullYear(year), month) == MonthLength(1900 + year + month / 12, month % 12)
  {
    hide CivilOf, MakeDay;
    MakeDayInMonth(1900 + year, month, 1);
  }

  // Rendering throws exactly for a month that begins before the first day a time value can
  // have and ends on or after it; a month that ends outside those days has no day cells,
  // and blanks only if it begins within them.
  lemma RenderThrowsIff(year: int, month: int, keys: set<string>, todayKey: string)
    ensures var first := FirstDay(MakeFullYear(year), month);
            var last := first + Length(MakeFullYear(year), month) - 1;
            && (RenderedMonth(year, month, keys, todayKey).None? <==> !ValidDay(first) && ValidDay(last))
            && (!ValidDay(last) ==>
                  var cells := RenderedMonth(year, month, keys, todayKey).value;
                  && |cells| == (if ValidDay(first) then MondayFirst(first) else 0)
                  && forall k :: 0 <= k < |cells| ==> cells[k] == Blank)
  {
    hide MakeDay, WeekDay, TimeClip, MonthGrid;
    var first := FirstDay(MakeFullYear(year), month);
    UTCInMonth(year, month, 1);
    ClipDay(first);
    ClipDay(first + Length(MakeFullYear(year), month) - 1);
  }

  // ---------- The component ----------

  predicate ValidTime(t: int) { -MAX_TIME <= t <= MAX_TIME }

  // The grids of the next `months` months, None if rendering one of them throws.
  function RenderedMonths(year: int, month: int, months: int, keys: set<string>, todayKey: string):
    Option<seq<seq<Cell>>>
    decreases months
  {
    if months <= 0 then Some([])
    else
      var before := RenderedMonths(year, month, months - 1, keys, todayKey);
      var last := NthMonth(year, month, months - 1, keys, todayKey);
      if before.None? || last.None? then None else Some(before.value + [last.value])
  }

  function NthMonth(year: int, month: int, i: int, keys: set<string>, todayKey: string): Option<seq<Cell>> {
    RenderedMonth(year, month + i, keys, todayKey)
  }

  // Rendering succeeds exactly when every month renders, and then grid i is the grid of
  // the month with index month + i.
  lemma {:induction false} RenderedMonthsAt(year: int, month: int, months: int, keys: set<string>, todayKey: string)
    ensures var r := RenderedMonths(year, month, months, keys, todayKey);
            && (r.Some? <==> forall i :: 0 <= i < months ==> NthMonth(year, month, i, keys, todayKey).Some?)
            && (r.Some? ==>
                  && |r.value| == (if months < 0 then 0 else months)
                  && forall i :: 0 <= i < months ==> NthMonth(year, month, i, keys, todayKey) == Some(r.value[i]))
    decreases months
  {
    hide NthMonth;
    if months > 0 { RenderedMonthsAt(year, month, months - 1, keys, todayKey); }
  }

  // todayTime and now are the component's two readings of the clock.
  method RenderCalendar(booked: seq<BookedRange>, months: int, todayTime: int, now: int)
    returns (r: Option<seq<seq<Cell>>>)
    requires ValidTime(todayTime) && ValidTime(now)
    ensures var c := CivilOf(Day(now));
            var keys, todayKey := BookedKeys(booked), Key(Day(todayTime));
            r == RenderedMonths(c.year, c.month, months, keys, todayKey)
  {
    hide CivilOf, Key, RenderedMonth, BookedKeys;
    var bookedSet := BuildBookedSet(booked);
    var todayKey := Key(Day(todayTime));
    var grids: seq<seq<Cell>> := [];
    ghost var c := CivilOf(Day(now));
    var i := 0;
    while i < months
      invariant 0 <= i && (i <= months || i == 0) && |grids| == i
      invariant RenderedMonths(c.year, c.month, i, bookedSet, todayKey) == Some(grids)
    {
      var y := CivilOf(Day(now)).year;
      var m := CivilOf(Day(now)).month + i;
      var grid := RenderMonth(y, m, bookedSet, todayKey);
      if grid.None? {
        assert NthMonth(c.year, c.month, i, bookedSet, todayKey).None?;
        RenderedMonthsAt(c.year, c.month, months, bookedSet, todayKey);
        return None;
      }
      assert grid == NthMonth(c.year, c.month, i, bookedSet, todayKey);
      grids := grids + [grid.value];
      i := i + 1;
    }
    return Some(grids);
  }

  // From year 100 until the grids leave year 9999, every rendered month is the grid of
  // the civil month `i` months after the current one, so GridMeaning applies to it.
  lemma CalendarShowsCivilMonths(c: Civil, i: nat, keys: set<string>, todayKey: string)
    requires Proper(c) && 100 <= c.year && c.year + (c.month + i) / 12 <= 9999
    ensures var y, m := c.year + (c.month + i) / 12, (c.month + i) % 12;
            RenderedMonth(c.year, c.month + i, keys, todayKey) ==
            Some(MonthGrid(DayOf(Civil(y, m, 1)), MonthLength(y, m), keys, todayKey))
  {
    hide CivilOf, YearOf, DayFromYear, MonthStart, Key, MonthGrid;
    var y, m := c.year + (c.month + i) / 12, (c.month + i) % 12;
    UTCInMonth(c.year, c.month + i, 1);
    var first := Civil(y, m, 1);
    var last := Civil(y, m, MonthLength(y, m));
    CivilOfDayOf(first);
    CivilOfDayOf(last);
    CivilYear(DayOf(first));
    CivilYear(DayOf(last));
    FourDigitDays(DayOf(first));
    FourDigitDays(DayOf(last));
  }

  // The component as a whole: read in a year from 100 on, it renders `months` grids, and
  // grid i is the true calendar of the i-th month from now: blanks before the first date,
  // every date in the column of its weekday, Mondays first,
  // booked exactly when a booking occupies it and past exactly when it precedes today.
  lemma CalendarIsRight(booked: seq<BookedRange>, months: int, today: int, c: Civil, i: int, date: int)
    requires Proper(c) && 100 <= c.year && c.year + (c.month + months - 1) / 12 <= 9999 && FourDigitYear(today)
    requires 0 <= i < months && 1 <= date <= Length(c.year, c.month + i)
    ensures var r := RenderedMonths(c.year, c.month, months, BookedKeys(booked), Key(today));
            var first := FirstDay(c.year, c.month + i);
            var day, column := first + date - 1, MondayFirst(first) + date - 1;
            && r.Some? && |r.value| == months
            && |r.value[i]| == MondayFirst(first) + Length(c.year, c.month + i)
            && WeekDay(day) == (column + 1) % 7
            && (forall k :: 0 <= k < MondayFirst(first) ==> r.value[i][k] == Blank)
            && CivilOf(day) == Civil(c.year + (c.month + i) / 12, (c.month + i) % 12, date)
            && r.value[i][column] == DayCell(date, Key(day), BookedOn(booked, day), day < today)
  {
    hide CivilOf, YearOf, DayOf, MonthLength, Key, BookedKeys, BookedOn, WeekDay, MonthGrid, RenderedMonth;
    var keys, todayKey := BookedKeys(booked), Key(today);
    forall j | 0 <= j < months ensures NthMonth(c.year, c.month, j, keys, todayKey).Some? {
      CalendarShowsCivilMonths(c, j, keys, todayKey);
    }
    RenderedMonthsAt(c.year, c.month, months, keys, todayKey);
    CalendarShowsCivilMonths(c, i, keys, todayKey);
    GridMeaning(c.year + (c.month + i) / 12, (c.month + i) % 12, booked, today, date);
  }
}
