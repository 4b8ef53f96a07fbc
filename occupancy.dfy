// old.py: process builds the occupancy index building -> semester -> day ->
// hour -> rooms, and interact looks up one hour of it to list the free rooms
// of a building in sorted order.

module Occupancy {
  import opened Strings
  import opened Schedule
  import Rooms

  type DayData = map<int, seq<string>>
  type SemesterData = map<string, DayData>
  type BuildingData = map<string, SemesterData>
  type Index = map<string, BuildingData>

  /** all_hours = range(7, 21): the hour keys seeded under every (building, semester, day). */
  const AllHours: set<int> := set h: int | 7 <= h < 21

  /** The records process reads: each has a span normalize_hours can read. */
  predicate AllAccepted(rs: seq<Record>)
  {
    forall j :: 0 <= j < |rs| ==> Accepted(rs[j].hours)
  }

  /** The record is about this building, semester and day. */
  predicate At(r: Record, b: string, s: string, dy: string)
  {
    r.building == b && r.semester == s && r.day == dy
  }

  /** The record holds its room at this building, semester, day and hour. */
  predicate Occupies(r: Record, b: string, s: string, dy: string, h: int)
    requires Accepted(r.hours)
  {
    At(r, b, s, dy) && h in NormalizeHours(r.hours)
  }

  // ---------------------------------------------------------------------------
  // What the index holds, as functions of the records

  /** The buildings of the records. */
  function Buildings(rs: seq<Record>): set<string>
  {
    if rs == [] then {} else Buildings(rs[..|rs| - 1]) + {rs[|rs| - 1].building}
  }

  /** The semesters of the records in building b. */
  function Semesters(rs: seq<Record>, b: string): set<string>
  {
    if rs == [] then {}
    else
      var d := rs[|rs| - 1];
      Semesters(rs[..|rs| - 1], b) + if d.building == b then {d.semester} else {}
  }

  /** The days of the records in building b and semester s. */
  function Days(rs: seq<Record>, b: string, s: string): set<string>
  {
    if rs == [] then {}
    else
      var d := rs[|rs| - 1];
      Days(rs[..|rs| - 1], b, s) + if d.building == b && d.semester == s then {d.day} else {}
  }

  /** The rooms of the records occupying (b, s, dy, h), one entry per record, in record order. */
  function Occupants(rs: seq<Record>, b: string, s: string, dy: string, h: int): seq<string>
    requires AllAccepted(rs)
  {
    if rs == [] then []
    else
      var d := rs[|rs| - 1];
      Occupants(rs[..|rs| - 1], b, s, dy, h) + if Occupies(d, b, s, dy, h) then [d.room] else []
  }

  lemma {:induction false} BuildingsMembers(rs: seq<Record>, b: string)
    ensures b in Buildings(rs) <==> exists j :: 0 <= j < |rs| && rs[j].building == b
  {
    if rs != [] {
      var n := |rs| - 1;
      BuildingsMembers(rs[..n], b);
      assert forall j :: 0 <= j < n ==> rs[..n][j] == rs[j];
    }
  }

  lemma {:induction false} SemestersMembers(rs: seq<Record>, b: string, s: string)
    ensures s in Semesters(rs, b) <==> exists j :: 0 <= j < |rs| && rs[j].building == b && rs[j].semester == s
  {
    if rs != [] {
      var n := |rs| - 1;
      SemestersMembers(rs[..n], b, s);
      assert forall j :: 0 <= j < n ==> rs[..n][j] == rs[j];
    }
  }

  lemma {:induction false} DaysMembers(rs: seq<Record>, b: string, s: string, dy: string)
    ensures dy in Days(rs, b, s) <==> exists j :: 0 <= j < |rs| && At(rs[j], b, s, dy)
  {
    if rs != [] {
      var n := |rs| - 1;
      DaysMembers(rs[..n], b, s, dy);
      assert forall j :: 0 <= j < n ==> rs[..n][j] == rs[j];
    }
  }

  /** A room is listed at (b, s, dy, h) exactly when some record puts it there. */
  lemma {:induction false} OccupantsMembers(rs: seq<Record>, b: string, s: string, dy: string, h: int, x: string)
    requires AllAccepted(rs)
    ensures x in Occupants(rs, b, s, dy, h) <==>
              exists j :: 0 <= j < |rs| && Occupies(rs[j], b, s, dy, h) && rs[j].room == x
  {
    if rs != [] {
      var n := |rs| - 1;
      OccupantsMembers(rs[..n], b, s, dy, h, x);
      assert forall j :: 0 <= j < n ==> rs[..n][j] == rs[j];
    }
  }

  // ---------------------------------------------------------------------------
  // One more record

  lemma BuildingsSnoc(rs: seq<Record>, d: Record)
    ensures Buildings(rs + [d]) == Buildings(rs) + {d.building}
  {
    assert (rs + [d])[..|rs|] == rs;
  }

  lemma SemestersSnoc(rs: seq<Record>, d: Record, b: string)
    ensures Semesters(rs + [d], b) == Semesters(rs, b) + if d.building == b then {d.semester} else {}
  {
    assert (rs + [d])[..|rs|] == rs;
  }

  lemma DaysSnoc(rs: seq<Record>, d: Record, b: string, s: string)
    ensures Days(rs + [d], b, s) == Days(rs, b, s) + if d.building == b && d.semester == s then {d.day} else {}
  {
    assert (rs + [d])[..|rs|] == rs;
  }

  lemma OccupantsSnoc(rs: seq<Record>, d: Record, b: string, s: string, dy: string, h: int)
    requires AllAccepted(rs) && Accepted(d.hours)
    ensures AllAccepted(rs + [d])
    ensures Occupants(rs + [d], b, s, dy, h) ==
              Occupants(rs, b, s, dy, h) + if Occupies(d, b, s, dy, h) then [d.room] else []
  {
    assert (rs + [d])[..|rs|] == rs;
  }

  /** A building without records has no semesters. */
  lemma {:induction false} AbsentBuilding(rs: seq<Record>, b: string)
    requires b !in Buildings(rs)
    ensures Semesters(rs, b) == {}
  {
    if rs != [] {
      AbsentBuilding(rs[..|rs| - 1], b);
    }
  }

  /** A semester without records in a building has no days. */
  lemma {:induction false} AbsentSemester(rs: seq<Record>, b: string, s: string)
    requires s !in Semesters(rs, b)
    ensures Days(rs, b, s) == {}
  {
    if rs != [] {
      AbsentSemester(rs[..|rs| - 1], b, s);
    }
  }

  /** A day without records in a building and semester has no occupants. */
  lemma {:induction false} AbsentDay(rs: seq<Record>, b: string, s: string, dy: string, h: int)
    requires AllAccepted(rs) && dy !in Days(rs, b, s)
    ensures Occupants(rs, b, s, dy, h) == []
  {
    if rs != [] {
      AbsentDay(rs[..|rs| - 1], b, s, dy, h);
    }
  }

  /** Nobody occupies an hour outside 7..20: accepted spans stay within the day. */
  lemma {:induction false} OutsideHours(rs: seq<Record>, b: string, s: string, dy: string, h: int)
    requires AllAccepted(rs) && h !in AllHours
    ensures Occupants(rs, b, s, dy, h) == []
  {
    if rs != [] {
      OutsideHours(rs[..|rs| - 1], b, s, dy, h);
      NormalizeHoursWithinDay(rs[|rs| - 1].hours);
    }
  }

  // ---------------------------------------------------------------------------
  // The index represents the records, level by level

  ghost predicate DayOk(dd: DayData, rs: seq<Record>, b: string, s: string, dy: string)
    requires AllAccepted(rs)
  {
    dd.Keys == AllHours && forall h :: h in dd ==> dd[h] == Occupants(rs, b, s, dy, h)
  }

  ghost predicate SemesterOk(sd: SemesterData, rs: seq<Record>, b: string, s: string)
    requires AllAccepted(rs)
  {
    sd.Keys == Days(rs, b, s) && forall dy :: dy in sd ==> DayOk(sd[dy], rs, b, s, dy)
  }

  ghost predicate BuildingOk(bd: BuildingData, rs: seq<Record>, b: string)
    requires AllAccepted(rs)
  {
    bd.Keys == Semesters(rs, b) && forall s :: s in bd ==> SemesterOk(bd[s], rs, b, s)
  }

  /**
   * The index process builds from rs: a key for each building, semester and
   * day that some record has, under each of them the hours 7..20, and under
   * each hour the rooms the records occupy it with.
   */
  ghost predicate Represents(index: Index, rs: seq<Record>)
    requires AllAccepted(rs)
  {
    index.Keys == Buildings(rs) && forall b :: b in index ==> BuildingOk(index[b], rs, b)
  }

  lemma DayStable(dd: DayData, rs: seq<Record>, d: Record, b: string, s: string, dy: string)
    requires AllAccepted(rs) && Accepted(d.hours)
    requires DayOk(dd, rs, b, s, dy) && !At(d, b, s, dy)
    ensures AllAccepted(rs + [d]) && DayOk(dd, rs + [d], b, s, dy)
  {
    forall h | h in dd
      ensures dd[h] == Occupants(rs + [d], b, s, dy, h)
    {
      OccupantsSnoc(rs, d, b, s, dy, h);
    }
  }

  lemma SemesterStable(sd: SemesterData, rs: seq<Record>, d: Record, b: string, s: string)
    requires AllAccepted(rs) && Accepted(d.hours)
    requires SemesterOk(sd, rs, b, s) && !(d.building == b && d.semester == s)
    ensures AllAccepted(rs + [d]) && SemesterOk(sd, rs + [d], b, s)
  {
    DaysSnoc(rs, d, b, s);
    forall dy | dy in sd
      ensures DayOk(sd[dy], rs + [d], b, s, dy)
    {
      DayStable(sd[dy], rs, d, b, s, dy);
    }
  }

  lemma BuildingStable(bd: BuildingData, rs: seq<Record>, d: Record, b: string)
    requires AllAccepted(rs) && Accepted(d.hours)
    requires BuildingOk(bd, rs, b) && d.building != b
    ensures AllAccepted(rs + [d]) && BuildingOk(bd, rs + [d], b)
  {
    SemestersSnoc(rs, d, b);
    forall s | s in bd
      ensures SemesterOk(bd[s], rs + [d], b, s)
    {
      SemesterStable(bd[s], rs, d, b, s);
    }
  }

  lemma SemesterUpdate(sd: SemesterData, rs: seq<Record>, d: Record, dd: DayData)
    requires AllAccepted(rs) && Accepted(d.hours) && AllAccepted(rs + [d])
    requires SemesterOk(sd, rs, d.building, d.semester)
    requires DayOk(dd, rs + [d], d.building, d.semester, d.day)
    ensures SemesterOk(sd[d.day := dd], rs + [d], d.building, d.semester)
  {
    DaysSnoc(rs, d, d.building, d.semester);
    forall dy | dy in sd && dy != d.day
      ensures DayOk(sd[dy], rs + [d], d.building, d.semester, dy)
    {
      DayStable(sd[dy], rs, d, d.building, d.semester, dy);
    }
  }

  lemma BuildingUpdate(bd: BuildingData, rs: seq<Record>, d: Record, sd: SemesterData)
    requires AllAccepted(rs) && Accepted(d.hours) && AllAccepted(rs + [d])
    requires BuildingOk(bd, rs, d.building)
    requires SemesterOk(sd, rs + [d], d.building, d.semester)
    ensures BuildingOk(bd[d.semester := sd], rs + [d], d.building)
  {
    SemestersSnoc(rs, d, d.building);
    forall s | s in bd && s != d.semester
      ensures SemesterOk(bd[s], rs + [d], d.building, s)
    {
      SemesterStable(bd[s], rs, d, d.building, s);
    }
  }

  lemma IndexUpdate(index: Index, rs: seq<Record>, d: Record, bd: BuildingData)
    requires AllAccepted(rs) && Accepted(d.hours) && AllAccepted(rs + [d])
    requires Represents(index, rs)
    requires BuildingOk(bd, rs + [d], d.building)
    ensures Represents(index[d.building := bd], rs + [d])
  {
    var index' := index[d.building := bd];
    BuildingsSnoc(rs, d);
    assert index'.Keys == index.Keys + {d.building};
    forall b | b in index'
      ensures BuildingOk(index'[b], rs + [d], b)
    {
      if b != d.building {
        BuildingStable(index[b], rs, d, b);
      }
    }
  }


  /** normalize_hours lists each hour once, in increasing order. */
  lemma NormalizeHoursIncreasing(h: Hours)
    requires IsTime(h.start) && IsTime(h.end)
    ensures forall i, j :: 0 <= i < j < |NormalizeHours(h)| ==> NormalizeHours(h)[i] < NormalizeHours(h)[j]
  {
  }

  // ---------------------------------------------------------------------------
  // process

  /**
   * The setdefault chain for one record's building, semester and day: it
   * finds the day's hour table or starts an empty one.
   */
  method DayTable(index: Index, ghost rs: seq<Record>, d: Record)
    returns (bd: BuildingData, sd: SemesterData, dd: DayData)
    requires AllAccepted(rs) && Represents(index, rs)
    ensures BuildingOk(bd, rs, d.building) && SemesterOk(sd, rs, d.building, d.semester)
    ensures forall h :: h in dd ==> dd[h] == Occupants(rs, d.building, d.semester, d.day, h)
    ensures forall h :: h !in dd ==> Occupants(rs, d.building, d.semester, d.day, h) == []
    ensures dd.Keys <= AllHours
  {
    if d.building in index {
      bd := index[d.building];
    } else {
      bd := map[];
      AbsentBuilding(rs, d.building);
    }
    if d.semester in bd {
      sd := bd[d.semester];
    } else {
      sd := map[];
      AbsentSemester(rs, d.building, d.semester);
    }
    if d.day in sd {
      dd := sd[d.day];
      forall h | h !in dd
        ensures Occupants(rs, d.building, d.semester, d.day, h) == []
      {
        OutsideHours(rs, d.building, d.semester, d.day, h);
      }
    } else {
      dd := map[];
      forall h ensures Occupants(rs, d.building, d.semester, d.day, h) == [] {
        AbsentDay(rs, d.building, d.semester, d.day, h);
      }
    }
  }

  /** for h in all_hours: day_data.setdefault(h, []) */
  method SeedHours(dd: DayData, ghost rs: seq<Record>, d: Record) returns (seeded: DayData)
    requires AllAccepted(rs)
    requires forall h :: h in dd ==> dd[h] == Occupants(rs, d.building, d.semester, d.day, h)
    requires forall h :: h !in dd ==> Occupants(rs, d.building, d.semester, d.day, h) == []
    requires dd.Keys <= AllHours
    ensures DayOk(seeded, rs, d.building, d.semester, d.day)
  {
    seeded := dd;
    for h := 7 to 21
      invariant forall x :: x in seeded ==> seeded[x] == Occupants(rs, d.building, d.semester, d.day, x)
      invariant forall x :: x !in seeded ==> Occupants(rs, d.building, d.semester, d.day, x) == []
      invariant seeded.Keys <= AllHours
      invariant forall x :: 7 <= x < h ==> x in seeded
    {
      if h !in seeded {
        seeded := seeded[h := []];
      }
    }
    assert forall x :: x in AllHours ==> 7 <= x < 21;
  }

  /** for h in normalize_hours(d['hours']): day_data[h].append(d['room']) */
  method AddHours(dd: DayData, ghost rs: seq<Record>, d: Record) returns (added: DayData)
    requires AllAccepted(rs) && Accepted(d.hours)
    requires DayOk(dd, rs, d.building, d.semester, d.day)
    ensures AllAccepted(rs + [d]) && DayOk(added, rs + [d], d.building, d.semester, d.day)
  {
    var hs := NormalizeHours(d.hours);
    NormalizeHoursWithinDay(d.hours);
    NormalizeHoursIncreasing(d.hours);
    added := dd;
    for k := 0 to |hs|
      invariant added.Keys == AllHours
      invariant forall h :: h in added ==>
                  added[h] == Occupants(rs, d.building, d.semester, d.day, h) + if h in hs[..k] then [d.room] else []
    {
      var h := hs[k];
      assert h in hs && 7 <= h < 21;
      assert h in AllHours;
      assert h !in hs[..k];
      assert forall x :: x in hs[..k + 1] <==> x in hs[..k] || x == h;
      added := added[h := added[h] + [d.room]];
    }
    assert hs[..|hs|] == hs;
    forall h | h in added
      ensures added[h] == Occupants(rs + [d], d.building, d.semester, d.day, h)
    {
      OccupantsSnoc(rs, d, d.building, d.semester, d.day, h);
    }
  }

  /** One turn of the second loop of process: file one record under its building, semester, day and hours. */
  method AddRecord(index: Index, ghost rs: seq<Record>, d: Record) returns (index': Index)
    requires AllAccepted(rs) && Accepted(d.hours) && Represents(index, rs)
    ensures AllAccepted(rs + [d]) && Represents(index', rs + [d])
  {
    var bd, sd, dd := DayTable(index, rs, d);
    dd := SeedHours(dd, rs, d);
    dd := AddHours(dd, rs, d);
    SemesterUpdate(sd, rs, d, dd);
    var sd' := sd[d.day := dd];
    BuildingUpdate(bd, rs, d, sd');
    var bd' := bd[d.semester := sd'];
    IndexUpdate(index, rs, d, bd');
    index' := index[d.building := bd'];
  }

  /** The registry and the index list the same buildings: those of the records. */
  lemma SameBuildings(rooms: map<string, set<string>>, index: Index, rs: seq<Record>)
    requires AllAccepted(rs) && Represents(index, rs)
    requires forall b :: b in rooms <==> exists j :: 0 <= j < |rs| && rs[j].building == b
    ensures rooms.Keys == index.Keys
  {
    forall b ensures b in rooms <==> b in index {
      BuildingsMembers(rs, b);
    }
  }

  /** The second loop of process: file every record in the index. */
  method BuildIndex(records: seq<Record>) returns (index: Index)
    requires AllAccepted(records)
    ensures Represents(index, records)
  {
    index := map[];
    for i := 0 to |records|
      invariant Represents(index, records[..i])
    {
      assert records[..i + 1] == records[..i] + [records[i]];
      index := AddRecord(index, records[..i], records[i]);
    }
    assert records[..|records|] == records;
  }

  /**
   * process (old.py): the room registry of every building and the occupancy
   * index of the records.
   */
  method Process(records: seq<Record>) returns (rooms: map<string, set<string>>, index: Index)
    requires AllAccepted(records)
    ensures forall b, x :: b in rooms && x in rooms[b] <==>
              exists j :: 0 <= j < |records| && records[j].building == b && records[j].room == x
    ensures rooms.Keys == index.Keys
    ensures Represents(index, records)
  {
    rooms := Rooms.Process(records);
    index := BuildIndex(records);
    SameBuildings(rooms, index, records);
  }


  // ---------------------------------------------------------------------------
  // Lookup and the sorted free rooms

  /** data.get(building, {}).get(semester, {}).get(day, {}).get(hour, {}) */
  function OccupiedAt(index: Index, b: string, s: string, dy: string, h: int): seq<string>
  {
    if b in index && s in index[b] && dy in index[b][s] && h in index[b][s][dy] then index[b][s][dy][h] else []
  }

  /** A lookup in the index finds exactly the rooms the records occupy that hour with, missing keys included. */
  lemma LookupOccupants(index: Index, rs: seq<Record>, b: string, s: string, dy: string, h: int)
    requires AllAccepted(rs) && Represents(index, rs)
    ensures OccupiedAt(index, b, s, dy, h) == Occupants(rs, b, s, dy, h)
  {
    if b !in index {
      AbsentBuilding(rs, b);
      AbsentSemester(rs, b, s);
      AbsentDay(rs, b, s, dy, h);
    } else if s !in index[b] {
      AbsentSemester(rs, b, s);
      AbsentDay(rs, b, s, dy, h);
    } else if dy !in index[b][s] {
      AbsentDay(rs, b, s, dy, h);
    } else if h !in index[b][s][dy] {
      OutsideHours(rs, b, s, dy, h);
    }
  }

  /** The occupied list of an hour names exactly the rooms some record holds at that hour. */
  lemma OccupiedAtMembers(index: Index, rs: seq<Record>, b: string, s: string, dy: string, h: int, x: string)
    requires AllAccepted(rs) && Represents(index, rs)
    ensures x in OccupiedAt(index, b, s, dy, h) <==>
              exists j :: 0 <= j < |rs| && Occupies(rs[j], b, s, dy, h) && rs[j].room == x
  {
    LookupOccupants(index, rs, b, s, dy, h);
    OccupantsMembers(rs, b, s, dy, h, x);
  }

  /** Sorted order without repeats, in Python's string order. */
  predicate StrictlySorted(s: seq<string>)
  {
    forall i, j :: 0 <= i < j < |s| ==> LexLess(s[i], s[j])
  }

  /** Sorted order, repeats allowed. */
  predicate Sorted(s: seq<string>)
  {
    forall i, j :: 0 <= i < j < |s| ==> !LexLess(s[j], s[i])
  }

  /** a <= b and b <= c give a <= c, for the order !LexLess(y, x) written x <= y. */
  lemma NotLessTransitive(a: string, b: string, c: string)
    requires !LexLess(b, a) && !LexLess(c, b)
    ensures !LexLess(c, a)
  {
    if LexLess(c, a) {
      LexLessTotal(a, b);
      if LexLess(a, b) {
        LexLessTransitive(c, a, b);
      }
      LexLessIrreflexive(b);
      LexLessAsymmetric(b, c);
    }
  }

  lemma ConsSorted(x: string, s: seq<string>)
    requires Sorted(s) && forall y :: y in s ==> !LexLess(y, x)
    ensures Sorted([x] + s)
  {
    var r := [x] + s;
    forall i, j | 0 <= i < j < |r| ensures !LexLess(r[j], r[i]) {
      if i > 0 {
        assert r[i] == s[i - 1] && r[j] == s[j - 1];
      } else {
        assert r[j] in s;
      }
    }
  }

  /** x goes in front of a sorted s whose first element is not below it. */
  lemma InsertFront(s: seq<string>, x: string)
    requires Sorted(s) && (s == [] || !LexLess(s[0], x))
    ensures Sorted([x] + s)
  {
    forall y | y in s ensures !LexLess(y, x) {
      var i :| 0 <= i < |s| && s[i] == y;
      if i > 0 {
        NotLessTransitive(x, s[0], y);
      }
    }
    ConsSorted(x, s);
  }

  /** s[0] stays in front of x inserted into the rest of a sorted s. */
  lemma InsertLater(s: seq<string>, x: string, rest: seq<string>)
    requires Sorted(s) && s != [] && LexLess(s[0], x)
    requires Sorted(rest) && multiset(rest) == multiset(s[1..]) + multiset{x}
    ensures Sorted([s[0]] + rest) && multiset([s[0]] + rest) == multiset(s) + multiset{x}
  {
    assert s == [s[0]] + s[1..];
    forall y | y in rest ensures !LexLess(y, s[0]) {
      assert y in multiset(rest);
      if y == x {
        LexLessAsymmetric(s[0], x);
      } else {
        assert y in multiset(s[1..]);
        var i :| 0 <= i < |s[1..]| && s[1..][i] == y;
        assert s[i + 1] == y;
      }
    }
    ConsSorted(s[0], rest);
  }

  /** x put into sorted s after every element below it. */
  function Insert(s: seq<string>, x: string): (r: seq<string>)
    requires Sorted(s)
    ensures Sorted(r) && multiset(r) == multiset(s) + multiset{x}
  {
    if s == [] || !LexLess(s[0], x) then
      InsertFront(s, x);
      [x] + s
    else
      var rest := Insert(s[1..], x);
      InsertLater(s, x, rest);
      [s[0]] + rest
  }

  /** sorted(): insertion sort, a permutation of its input in sorted order. */
  function Sort(xs: seq<string>): (r: seq<string>)
    ensures Sorted(r) && multiset(r) == multiset(xs)
  {
    if xs == [] then []
    else
      var n := |xs| - 1;
      assert xs == xs[..n] + [xs[n]];
      Insert(Sort(xs[..n]), xs[n])
  }

  /** Without repeats every value occurs at most once. */
  lemma {:induction false} DistinctCount(xs: seq<string>, v: string)
    requires Distinct(xs)
    ensures multiset(xs)[v] <= 1
  {
    if xs != [] {
      var n := |xs| - 1;
      assert xs == xs[..n] + [xs[n]];
      DistinctCount(xs[..n], v);
      if v == xs[n] {
        assert v !in xs[..n];
      }
    }
  }

  /** A value at two positions occurs at least twice. */
  lemma RepeatCount(ys: seq<string>, i: nat, j: nat)
    requires i < j < |ys| && ys[i] == ys[j]
    ensures multiset(ys)[ys[i]] >= 2
  {
    assert ys == ys[..j] + [ys[j]] + ys[j + 1..];
    assert ys[i] in ys[..j];
  }

  /** A permutation of a list without repeats has none either. */
  lemma DistinctPermutation(xs: seq<string>, ys: seq<string>)
    requires Distinct(xs) && multiset(xs) == multiset(ys)
    ensures Distinct(ys)
  {
    forall i, j | 0 <= i < j < |ys| ensures ys[i] != ys[j] {
      if ys[i] == ys[j] {
        RepeatCount(ys, i, j);
        DistinctCount(xs, ys[i]);
      }
    }
  }

  /** Sorted and free of repeats is sorted strictly. */
  lemma SortedDistinct(s: seq<string>)
    requires Sorted(s) && Distinct(s)
    ensures StrictlySorted(s)
  {
    forall i, j | 0 <= i < j < |s| ensures LexLess(s[i], s[j]) {
      LexLessTotal(s[i], s[j]);
    }
  }

  /** A strictly sorted listing is determined by its elements. */
  lemma {:induction false} StrictlySortedUnique(a: seq<string>, b: seq<string>)
    requires StrictlySorted(a) && StrictlySorted(b)
    requires forall x :: x in a <==> x in b
    ensures a == b
  {
    assert a != [] ==> a[0] in b;
    assert b != [] ==> b[0] in a;
    if a != [] && b != [] {
      if a[0] != b[0] {
        var i :| 0 <= i < |a| && a[i] == b[0];
        var j :| 0 <= j < |b| && b[j] == a[0];
        assert LexLess(a[0], b[0]) && LexLess(b[0], a[0]);
        LexLessAsymmetric(a[0], b[0]);
      }
      forall x ensures x in a[1..] <==> x in b[1..] {
        if x in a[1..] {
          var k :| 0 <= k < |a[1..]| && a[1..][k] == x;
          assert LexLess(a[0], a[k + 1]);
          LexLessIrreflexive(a[0]);
          assert a[k + 1] in a;
          var m :| 0 <= m < |b| && b[m] == x;
          assert b[1..][m - 1] == x;
        }
        if x in b[1..] {
          var k :| 0 <= k < |b[1..]| && b[1..][k] == x;
          assert LexLess(b[0], b[k + 1]);
          LexLessIrreflexive(b[0]);
          assert b[k + 1] in b;
          var m :| 0 <= m < |a| && a[m] == x;
          assert a[1..][m - 1] == x;
        }
      }
      StrictlySortedUnique(a[1..], b[1..]);
      assert a == [a[0]] + a[1..] && b == [b[0]] + b[1..];
    }
  }

  /**
   * free = sorted([r for r in rooms[building] if r not in occupied]) (old.py):
   * the building's rooms missing from the hour's occupied list, in sorted order.
   */
  method FreeRoomsSorted(rooms: map<string, set<string>>, index: Index, b: string, s: string, dy: string, h: int)
    returns (free: seq<string>)
    requires b in rooms
    ensures StrictlySorted(free)
    ensures forall x :: x in free <==> x in rooms[b] && x !in OccupiedAt(index, b, s, dy, h)
  {
    var occupied := OccupiedAt(index, b, s, dy, h);
    var candidates: seq<string> := [];
    var rest := rooms[b];
    while rest != {}
      invariant rest <= rooms[b] && Distinct(candidates)
      invariant forall x :: x in candidates ==> x !in rest
      invariant forall x :: x in candidates <==> x in rooms[b] - rest && x !in occupied
      decreases rest
    {
      var r :| r in rest;
      rest := rest - {r};
      if r !in occupied {
        candidates := candidates + [r];
      }
    }
    free := Sort(candidates);
    DistinctPermutation(candidates, free);
    SortedDistinct(free);
    forall x ensures x in free <==> x in candidates {
      assert x in free <==> x in multiset(free);
      assert x in candidates <==> x in multiset(candidates);
    }
  }
}
