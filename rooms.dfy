// main.py: the room registry built from parsed records, the free-room table
// shown to the user, the HOURS slot table and the POST parameters sent to the
// timetable form.

module Rooms {
  import opened Strings
  import opened Schedule

  // ---------------------------------------------------------------------------
  // process: building -> rooms

  /** process (main.py), also the first loop of process in old.py: every building's set of rooms. */
  method Process(records: seq<Record>) returns (rooms: map<string, set<string>>)
    ensures forall b :: b in rooms <==> exists j :: 0 <= j < |records| && records[j].building == b
    ensures forall b, x :: b in rooms && x in rooms[b] <==>
              exists j :: 0 <= j < |records| && records[j].building == b && records[j].room == x
  {
    rooms := map[];
    for i := 0 to |records|
      invariant forall b :: b in rooms <==> exists j :: 0 <= j < i && records[j].building == b
      invariant forall b, x :: b in rooms && x in rooms[b] <==>
                  exists j :: 0 <= j < i && records[j].building == b && records[j].room == x
    {
      var d := records[i];
      var current := if d.building in rooms then rooms[d.building] else {};
      rooms := rooms[d.building := current + {d.room}];
    }
  }

  // ---------------------------------------------------------------------------
  // Free rooms for one (semester, day, slot) query

  /**
   * The loop of interact (main.py) that builds free_rooms from all_rooms and
   * the rooms occupied in the chosen slot. A building with nothing occupied
   * keeps all its rooms; a building with every room occupied gets no entry.
   */
  method FreeRooms(allRooms: map<string, set<string>>, occupied: map<string, set<string>>)
    returns (free: map<string, set<string>>)
    ensures forall b :: b in free <==> b in allRooms && (b !in occupied || allRooms[b] - occupied[b] != {})
    ensures forall b :: b in free ==> free[b] == if b in occupied then allRooms[b] - occupied[b] else allRooms[b]
  {
    free := map[];
    var todo := allRooms.Keys;
    while todo != {}
      invariant todo <= allRooms.Keys
      invariant forall b :: b in free <==>
                  b in allRooms && b !in todo && (b !in occupied || allRooms[b] - occupied[b] != {})
      invariant forall b :: b in free ==>
                  free[b] == if b in occupied then allRooms[b] - occupied[b] else allRooms[b]
      decreases todo
    {
      var building :| building in todo;
      todo := todo - {building};
      var rooms := allRooms[building];
      if building in occupied {
        ghost var before := free;
        var rest := rooms;
        while rest != {}
          invariant rest <= rooms && building !in before
          invariant forall b :: b != building ==> (b in free <==> b in before)
          invariant forall b :: b != building && b in free ==> free[b] == before[b]
          invariant building in free <==> (rooms - rest) - occupied[building] != {}
          invariant building in free ==> free[building] == (rooms - rest) - occupied[building]
          decreases rest
        {
          var room :| room in rest;
          ghost var seen := (rooms - rest) - occupied[building];
          rest := rest - {room};
          assert (rooms - rest) - occupied[building] ==
                 seen + (if room in occupied[building] then {} else {room});
          if room !in occupied[building] {
            var current := if building in free then free[building] else {};
            free := free[building := current + {room}];
          }
        }
      } else {
        free := free[building := rooms];
      }
    }
  }

  // ---------------------------------------------------------------------------
  // HOURS: which request slot covers an hour

  /** HOURS: groups of hours and the slot number the form expects for them. */
  const HoursTable: seq<(seq<int>, int)> :=
    [([7, 8, 9], 1), ([10, 11], 2), ([12, 13], 3), ([14, 15], 4), ([16, 17], 5), ([18, 19], 6)]

  /** The slot of the first group, from index i on, containing the hour. */
  function SlotFrom(table: seq<(seq<int>, int)>, i: nat, hour: int): (r: Option<int>)
    requires i <= |table|
    ensures r.None? <==> forall k :: i <= k < |table| ==> hour !in table[k].0
    ensures r.Some? ==> exists k :: i <= k < |table| && hour in table[k].0 && r.value == table[k].1
    decreases |table| - i
  {
    if i == |table| then None
    else if hour in table[i].0 then Some(table[i].1)
    else SlotFrom(table, i + 1, hour)
  }

  /** `[v for k, v in HOURS.iteritems() if hour in k][0]`; None where that list would be empty. */
  function SlotOf(hour: int): (r: Option<int>)
    ensures r.Some? ==> 1 <= r.value <= 6
  {
    var t := HoursTable;
    assert forall k :: 0 <= k < |t| ==> 1 <= t[k].1 <= 6;
    SlotFrom(t, 0, hour)
  }

  /** No hour is in two groups, so the dictionary's iteration order cannot change the slot. */
  lemma HoursGroupsDisjoint()
    ensures forall i, j, h :: 0 <= i < j < |HoursTable| && h in HoursTable[i].0 ==> h !in HoursTable[j].0
  {
  }

  /** An hour of group g gets that group's slot. */
  lemma SlotOfGroup(hour: int, g: nat)
    requires g < |HoursTable| && hour in HoursTable[g].0
    ensures SlotOf(hour) == Some(HoursTable[g].1)
  {
    HoursGroupsDisjoint();
  }

  /** Slot 1 is 7..9, then two hours per slot up to slot 6 at 18..19; other hours have none. */
  lemma SlotOfHour(hour: int)
    ensures SlotOf(hour) == if 7 <= hour <= 9 then Some(1) else if 10 <= hour <= 19 then Some(hour / 2 - 3) else None
  {
    var t := HoursTable;
    if 7 <= hour <= 9 {
      assert hour in t[0].0;
      SlotOfGroup(hour, 0);
    } else if 10 <= hour <= 19 {
      var g := hour / 2 - 4;
      assert hour in t[g].0 && t[g].1 == hour / 2 - 3 by {
        if g == 1 { assert t[1] == ([10, 11], 2); }
        else if g == 2 { assert t[2] == ([12, 13], 3); }
        else if g == 3 { assert t[3] == ([14, 15], 4); }
        else if g == 4 { assert t[4] == ([16, 17], 5); }
        else { assert t[5] == ([18, 19], 6); }
      }
      SlotOfGroup(hour, g);
    } else {
      assert forall k :: 0 <= k < |t| ==> hour !in t[k].0;
    }
  }

  function Flatten(table: seq<(seq<int>, int)>): seq<int>
  {
    if table == [] then [] else table[0].0 + Flatten(table[1..])
  }

  /** The hours offered for selection, `sorted(h for group in HOURS for h in group)`: 7 to 19 in order. */
  function SelectableHours(): (r: seq<int>)
    ensures r == Range(7, 20)
  {
    var t := HoursTable;
    assert t[1..][1..][1..][1..][1..][1..] == [];
    Flatten(t)
  }

  /** Every selectable hour has a slot, so the lookup never indexes an empty list. */
  lemma SelectableHoursHaveSlots()
    ensures forall h :: h in SelectableHours() ==> SlotOf(h).Some?
  {
    forall h | h in SelectableHours() ensures SlotOf(h).Some? {
      SlotOfHour(h);
    }
  }

  // ---------------------------------------------------------------------------
  // gen_request_data: the POST parameters, an ordered dictionary

  /** An OrderedDict of form fields, as its (key, value) pairs in order. */
  type Params = seq<(string, string)>

  function Keys(d: Params): (r: seq<string>)
    ensures |r| == |d| && forall k :: 0 <= k < |d| ==> r[k] == d[k].0
  {
    seq(|d|, k requires 0 <= k < |d| => d[k].0)
  }

  /** The value stored under a key, if any. */
  function Get(d: Params, key: string): Option<string>
  {
    if d == [] then None else if d[0].0 == key then Some(d[0].1) else Get(d[1..], key)
  }

  /** The dictionary built at the top of gen_request_data. */
  function RequestTemplate(semester: string, day: string, hour: string): Params
  {
    [ ("MfcISAPICommand", "but"), ("year", ""), ("semester", semester), ("hour", hour), ("yom", day),
      ("department1", "08"), ("department2", "05"), ("department3", "10"), ("department4", "04"),
      ("department5", "06"), ("department6", "03"), ("department7", "14"),
      ("course_nam", ""), ("teach_nam", ""),
      ("department8", "12"), ("department9", "01"), ("department10", "11"),
      ("department11", "21712172"), ("department12", "188018821883"), ("department13", "1843") ]
  }

  /** The values department10 takes in the four follow-up requests. */
  const ExtraDepartment10: seq<string> := ["11", "07", "09", "15"]

  /** key.startswith('department') */
  predicate IsDepartment(key: string)
  {
    |key| >= 10 && key[..10] == "department"
  }

  /** The dictionary without the entries whose key is in `drop`, order kept. */
  function Without(d: Params, drop: set<string>): (r: Params)
    ensures |r| <= |d|
  {
    if d == [] then [] else (if d[0].0 in drop then [] else [d[0]]) + Without(d[1..], drop)
  }

  /** data.pop(key) */
  function Pop(d: Params, key: string): Params
  {
    Without(d, {key})
  }

  /** data[key] = value: replaces the value of an existing key in place, appends a new key at the end. */
  function Assign(d: Params, key: string, value: string): (r: Params)
  {
    if key in Keys(d) then seq(|d|, j requires 0 <= j < |d| => if d[j].0 == key then (key, value) else d[j])
    else d + [(key, value)]
  }

  /** The keys the first request leaves out because their argument is falsy. */
  function Dropped(semester: string, day: string, hour: string): set<string>
  {
    (if semester == "" then {"semester"} else {}) + (if day == "" then {"yom"} else {}) + (if hour == "" then {"hour"} else {})
  }

  /** A follow-up request: same keys in the same order, departments blank except department10. */
  function FollowUp(first: Params, dep10: string): (r: Params)
  {
    seq(|first|, j requires 0 <= j < |first| =>
      (first[j].0, if first[j].0 == "department10" then dep10 else if IsDepartment(first[j].0) then "" else first[j].1))
  }

  lemma {:induction false} WithoutKeys(d: Params, drop: set<string>, key: string)
    ensures key in Keys(Without(d, drop)) <==> key in Keys(d) && key !in drop
  {
    if d != [] {
      var rest := Without(d[1..], drop);
      WithoutKeys(d[1..], drop, key);
      assert Keys(d) == [d[0].0] + Keys(d[1..]);
      if d[0].0 in drop {
        assert Without(d, drop) == rest;
      } else {
        assert Without(d, drop) == [d[0]] + rest;
        assert Keys([d[0]] + rest) == [d[0].0] + Keys(rest);
      }
    }
  }

  lemma {:induction false} WithoutGet(d: Params, drop: set<string>, key: string)
    requires key !in drop
    ensures Get(Without(d, drop), key) == Get(d, key)
  {
    if d != [] {
      WithoutGet(d[1..], drop, key);
      var w := Without(d, drop);
      if d[0].0 !in drop {
        assert w == [d[0]] + Without(d[1..], drop);
        assert w[0] == d[0] && w[1..] == Without(d[1..], drop);
      } else {
        assert w == Without(d[1..], drop);
      }
    }
  }

  lemma {:induction false} WithoutNothing(d: Params)
    ensures Without(d, {}) == d
  {
    if d != [] {
      WithoutNothing(d[1..]);
      assert [d[0]] + d[1..] == d;
    }
  }

  lemma {:induction false} WithoutWithout(d: Params, a: set<string>, b: set<string>)
    ensures Without(Without(d, a), b) == Without(d, a + b)
  {
    if d != [] {
      WithoutWithout(d[1..], a, b);
      var w := Without(d, a);
      if d[0].0 !in a {
        assert w == [d[0]] + Without(d[1..], a);
        assert w[0] == d[0] && w[1..] == Without(d[1..], a);
      } else {
        assert w == Without(d[1..], a);
      }
    }
  }

  lemma {:induction false} GetAt(d: Params, i: nat, key: string)
    requires i < |d| && d[i].0 == key
    requires forall j :: 0 <= j < i ==> d[j].0 != key
    ensures Get(d, key) == Some(d[i].1)
  {
    if i > 0 {
      GetAt(d[1..], i - 1, key);
    }
  }

  /** The fields of a parameter set that the first request's contract speaks about. */
  ghost predicate HasFields(t: Params, semester: string, day: string, hour: string)
  {
    && "semester" in Keys(t) && "yom" in Keys(t) && "hour" in Keys(t) && "department10" in Keys(t)
    && Get(t, "semester") == Some(semester) && Get(t, "yom") == Some(day) && Get(t, "hour") == Some(hour)
  }

  lemma TemplateKeys(semester: string, day: string, hour: string)
    ensures var ks := Keys(RequestTemplate(semester, day, hour));
            "semester" in ks && "yom" in ks && "hour" in ks && "department10" in ks
  {
    var ks := Keys(RequestTemplate(semester, day, hour));
    assert ks[2] == "semester" && ks[3] == "hour" && ks[4] == "yom" && ks[16] == "department10";
  }

  lemma TemplateSemester(semester: string, day: string, hour: string)
    ensures Get(RequestTemplate(semester, day, hour), "semester") == Some(semester)
  {
    GetAt(RequestTemplate(semester, day, hour), 2, "semester");
  }

  lemma TemplateHour(semester: string, day: string, hour: string)
    ensures Get(RequestTemplate(semester, day, hour), "hour") == Some(hour)
  {
    GetAt(RequestTemplate(semester, day, hour), 3, "hour");
  }

  lemma TemplateDay(semester: string, day: string, hour: string)
    ensures Get(RequestTemplate(semester, day, hour), "yom") == Some(day)
  {
    GetAt(RequestTemplate(semester, day, hour), 4, "yom");
  }

  lemma TemplateFields(semester: string, day: string, hour: string)
    ensures HasFields(RequestTemplate(semester, day, hour), semester, day, hour)
  {
    TemplateKeys(semester, day, hour);
    TemplateSemester(semester, day, hour);
    TemplateHour(semester, day, hour);
    TemplateDay(semester, day, hour);
  }

  /** Dropping the falsy fields from any parameter set holding all three. */
  lemma DroppedFields(t: Params, semester: string, day: string, hour: string)
    requires HasFields(t, semester, day, hour)
    ensures var first := Without(t, Dropped(semester, day, hour));
            && ("semester" in Keys(first) <==> semester != "")
            && ("yom" in Keys(first) <==> day != "")
            && ("hour" in Keys(first) <==> hour != "")
            && (semester != "" ==> Get(first, "semester") == Some(semester))
            && (day != "" ==> Get(first, "yom") == Some(day))
            && (hour != "" ==> Get(first, "hour") == Some(hour))
            && "department10" in Keys(first)
  {
    var drop := Dropped(semester, day, hour);
    WithoutKeys(t, drop, "semester");
    WithoutKeys(t, drop, "yom");
    WithoutKeys(t, drop, "hour");
    WithoutKeys(t, drop, "department10");
    if semester != "" { WithoutGet(t, drop, "semester"); }
    if day != "" { WithoutGet(t, drop, "yom"); }
    if hour != "" { WithoutGet(t, drop, "hour"); }
  }

  /**
   * The first request carries semester, yom and hour exactly when the matching
   * argument is non-empty, with that argument as its value.
   */
  lemma FirstRequestFields(semester: string, day: string, hour: string)
    ensures var first := Without(RequestTemplate(semester, day, hour), Dropped(semester, day, hour));
            && ("semester" in Keys(first) <==> semester != "")
            && ("yom" in Keys(first) <==> day != "")
            && ("hour" in Keys(first) <==> hour != "")
            && (semester != "" ==> Get(first, "semester") == Some(semester))
            && (day != "" ==> Get(first, "yom") == Some(day))
            && (hour != "" ==> Get(first, "hour") == Some(hour))
            && "department10" in Keys(first)
  {
    TemplateFields(semester, day, hour);
    DroppedFields(RequestTemplate(semester, day, hour), semester, day, hour);
  }

  /** After the clearing loop: keys as in `first`, every department but department10 blank. */
  ghost predicate Cleared(first: Params, data: Params)
  {
    && |data| == |first|
    && (forall j :: 0 <= j < |data| ==> data[j].0 == first[j].0)
    && (forall j :: 0 <= j < |data| && first[j].0 != "department10" ==>
          data[j].1 == if IsDepartment(first[j].0) then "" else first[j].1)
  }

  lemma FollowUpCleared(first: Params, v: string)
    ensures Cleared(first, FollowUp(first, v))
  {
  }

  lemma AssignCleared(first: Params, data: Params, v: string)
    requires Cleared(first, data) && "department10" in Keys(first)
    ensures Assign(data, "department10", v) == FollowUp(first, v)
  {
    assert Keys(data) == Keys(first);
  }

  /** The three pops at the top of gen_request_data: a falsy argument's key leaves the dictionary. */
  method DropFalsy(template: Params, semester: string, day: string, hour: string) returns (data: Params)
    ensures data == Without(template, Dropped(semester, day, hour))
  {
    data := template;
    ghost var dropped: set<string> := {};
    WithoutNothing(template);
    if semester == "" {
      WithoutWithout(template, dropped, {"semester"});
      data := Pop(data, "semester");
      dropped := dropped + {"semester"};
    }
    if day == "" {
      WithoutWithout(template, dropped, {"yom"});
      data := Pop(data, "yom");
      dropped := dropped + {"yom"};
    }
    if hour == "" {
      WithoutWithout(template, dropped, {"hour"});
      data := Pop(data, "hour");
      dropped := dropped + {"hour"};
    }
    assert dropped == Dropped(semester, day, hour);
  }

  /** The loop of gen_request_data that blanks every department field. */
  method ClearDepartments(first: Params) returns (data: Params)
    ensures Cleared(first, data)
    ensures forall j :: 0 <= j < |data| && IsDepartment(first[j].0) ==> data[j].1 == ""
  {
    data := first;
    var i := 0;
    while i < |data|
      invariant 0 <= i <= |data| && |data| == |first|
      invariant forall j :: 0 <= j < |data| ==> data[j].0 == first[j].0
      invariant forall j :: 0 <= j < |data| ==>
                  data[j].1 == if j < i && IsDepartment(first[j].0) then "" else first[j].1
    {
      if IsDepartment(data[i].0) {
        data := data[i := (data[i].0, "")];
      }
      i := i + 1;
    }
  }

  /** The loop of gen_request_data over the extra department10 values, one snapshot per value. */
  method FollowUps(first: Params, cleared: Params) returns (requests: seq<Params>)
    requires Cleared(first, cleared) && "department10" in Keys(first)
    ensures |requests| == |ExtraDepartment10|
    ensures forall k :: 0 <= k < |requests| ==> requests[k] == FollowUp(first, ExtraDepartment10[k])
  {
    var data := cleared;
    requests := [];
    var k := 0;
    while k < |ExtraDepartment10|
      invariant 0 <= k <= |ExtraDepartment10| && |requests| == k
      invariant forall m :: 0 <= m < k ==> requests[m] == FollowUp(first, ExtraDepartment10[m])
      invariant Cleared(first, data)
    {
      AssignCleared(first, data, ExtraDepartment10[k]);
      data := Assign(data, "department10", ExtraDepartment10[k]);
      FollowUpCleared(first, ExtraDepartment10[k]);
      requests := requests + [data];
      k := k + 1;
    }
  }

  /**
   * gen_request_data: the five parameter sets it yields, as snapshots. The first
   * is the template without the falsy optional fields; each of the other four
   * keeps its keys and order, blanks every department field and sets
   * department10 to the next of 11, 07, 09, 15.
   */
  method GenRequestData(semester: string, day: string, hour: string) returns (requests: seq<Params>)
    ensures |requests| == 1 + |ExtraDepartment10|
    ensures requests[0] == Without(RequestTemplate(semester, day, hour), Dropped(semester, day, hour))
    ensures forall k :: 1 <= k < |requests| ==> requests[k] == FollowUp(requests[0], ExtraDepartment10[k - 1])
  {
    var data := RequestTemplate(semester, day, hour);
    data := DropFalsy(data, semester, day, hour);
    FirstRequestFields(semester, day, hour);
    var first := data;
    data := ClearDepartments(data);
    var rest := FollowUps(first, data);
    requests := [first] + rest;
  }
}
