/** tz_lookup, localtime and mktime: the offset in force at a time, and the time that shows a given
    local clock. */
module TimeZone {
  import opened Calendar

  datatype TtInfo = TtInfo(gmtoff: int, isdst: bool)

  const UTC := TtInfo(0, false)

  /** The loaded zone: transition times, the type each starts, and the types. */
  datatype Zone = Zone(transitions: seq<int>, typeIdxs: seq<nat>, types: seq<TtInfo>) {
    /** Sorted times, and the number of a type for each. */
    predicate Valid() {
      && |typeIdxs| == |transitions|
      && (forall i, j | 0 <= i < j < |transitions| :: transitions[i] <= transitions[j])
    }

    /** All the type numbers are those of types. */
    predicate Usable() {
      Valid() && |types| > 0 && forall k | 0 <= k < |typeIdxs| :: typeIdxs[k] < |types|
    }
  }

  /** k transitions have happened by the time t. */
  predicate Passed(z: Zone, t: int, k: nat) {
    && k <= |z.transitions|
    && (forall i | 0 <= i < k :: z.transitions[i] <= t)
    && (forall i | k <= i < |z.transitions| :: t < z.transitions[i])
  }

  /** The first type that is not daylight saving time, or type 0. */
  function FirstStandard(types: seq<TtInfo>, i: nat): (k: nat)
    requires i <= |types|
    ensures || (i <= k < |types| && !types[k].isdst && forall j | i <= j < k :: types[j].isdst)
            || (k == 0 && forall j | i <= j < |types| :: types[j].isdst)
    decreases |types| - i
  {
    if i == |types| then 0 else if !types[i].isdst then i else FirstStandard(types, i + 1)
  }

  /** The type in force when k transitions have happened. */
  function TypeAfter(z: Zone, k: nat): (i: nat)
    requires z.Valid() && k <= |z.transitions|
    ensures z.Usable() ==> i < |z.types|
  {
    if k > 0 then z.typeIdxs[k - 1] else FirstStandard(z.types, 0)
  }

  lemma PassedOnce(z: Zone, t: int, j: nat, k: nat)
    requires Passed(z, t, j) && Passed(z, t, k)
    ensures j == k
  {
    assert j < |z.transitions| ==> t < z.transitions[j];
    assert k < |z.transitions| ==> t < z.transitions[k];
  }

  function CountFrom(z: Zone, t: int, n: nat): (k: nat)
    requires z.Valid() && n <= |z.transitions| && forall i | n <= i < |z.transitions| :: t < z.transitions[i]
    ensures Passed(z, t, k)
  {
    if n == 0 || z.transitions[n - 1] <= t then n else CountFrom(z, t, n - 1)
  }

  /** The number of transitions up to a time, and the type then in force. */
  function Count(z: Zone, t: int): (k: nat)
    requires z.Valid()
    ensures Passed(z, t, k)
  {
    CountFrom(z, t, |z.transitions|)
  }

  function TypeAt(z: Zone, t: int): (i: nat)
    requires z.Valid()
    ensures z.Usable() ==> i < |z.types|
  {
    TypeAfter(z, Count(z, t))
  }

  /** The offset in force at a time. */
  function Offset(z: Zone, t: int): int
    requires z.Usable()
  {
    z.types[TypeAt(z, t)].gmtoff
  }

  // ---- the type in force, on the arrays of the zone

  /** The first type that is not daylight saving time, or type 0 if all are. */
  predicate DefaultType(types: seq<TtInfo>, i: nat) {
    i < |types| && (forall j | 0 <= j < i :: types[j].isdst) &&
      (!types[i].isdst || (i == 0 && forall j | 0 <= j < |types| :: types[j].isdst))
  }

  /** What is in force at t: the type that the last transition up to t starts, and before all transitions the default
      one; `ok` says that there is such a type. */
  ghost predicate InForce(z: Zone, t: int, ok: bool, info: TtInfo)
    requires z.Valid()
  {
    forall k {:trigger Passed(z, t, k)} | Passed(z, t, k) ::
      if k == 0 then (ok <==> z.types != []) && forall i: nat | DefaultType(z.types, i) :: info == z.types[i]
      else (ok <==> z.typeIdxs[k - 1] < |z.types|) && (ok ==> info == z.types[z.typeIdxs[k - 1]])
  }

  lemma DefaultOnce(types: seq<TtInfo>, i: nat)
    requires DefaultType(types, i)
    ensures i == FirstStandard(types, 0)
  {
    var d := FirstStandard(types, 0);
    assert types[i].isdst || types[d].isdst || i == d;
  }

  lemma TypeInForce(z: Zone, t: int)
    requires z.Valid()
    ensures var i := TypeAt(z, t); InForce(z, t, i < |z.types|, if i < |z.types| then z.types[i] else UTC)
  {
    var k := Count(z, t);
    forall j | Passed(z, t, j) ensures j == k {
      PassedOnce(z, t, j, k);
    }
    forall i: nat | DefaultType(z.types, i) ensures i == FirstStandard(z.types, 0) {
      DefaultOnce(z.types, i);
    }
  }

  /** The offset in force is that of the type the last transition starts, or of the default one. */
  lemma OffsetInForce(z: Zone, t: int, k: nat)
    requires z.Usable() && Passed(z, t, k)
    ensures k > 0 ==> Offset(z, t) == z.types[z.typeIdxs[k - 1]].gmtoff
    ensures k == 0 ==> exists i: nat :: DefaultType(z.types, i) && Offset(z, t) == z.types[i].gmtoff
  {
    TypeInForce(z, t);
    PassedOnce(z, t, k, Count(z, t));
    if k == 0 {
      assert DefaultType(z.types, FirstStandard(z.types, 0));
    }
  }

  /** tz_lookup: binary search for the last transition that is not later than the timestamp. */
  method TzLookup(z: Zone, timestamp: int) returns (ok: bool, result: TtInfo)
    requires z.Valid()
    ensures ok <==> TypeAt(z, timestamp) < |z.types|
    ensures ok ==> result == z.types[TypeAt(z, timestamp)]
    ensures InForce(z, timestamp, ok, result) && (!ok ==> result == UTC)
  {
    var idx: int := -1;
    if |z.transitions| > 0 {
      if timestamp >= z.transitions[0] {
        var low, high := 0, |z.transitions| - 1;
        while low <= high
          invariant 0 <= low <= high + 1 <= |z.transitions| && idx == low - 1
          invariant forall i | 0 <= i < low :: z.transitions[i] <= timestamp
          invariant forall i | high < i < |z.transitions| :: timestamp < z.transitions[i]
        {
          var mid := low + (high - low) / 2;
          if z.transitions[mid] <= timestamp {
            idx := mid;
            low := mid + 1;
          } else {
            if mid == 0 {
              break;
            }
            high := mid - 1;
          }
        }
      }
    }
    TypeInForce(z, timestamp);
    ghost var k := idx + 1;
    assert Passed(z, timestamp, k);
    PassedOnce(z, timestamp, k, Count(z, timestamp));
    var typeIdx: nat := 0;
    if idx != -1 {
      typeIdx := z.typeIdxs[idx];
    } else {
      var i: nat := 0;
      while i < |z.types|
        invariant i <= |z.types| && FirstStandard(z.types, 0) == FirstStandard(z.types, i) && typeIdx == 0
      {
        if !z.types[i].isdst {
          typeIdx := i;
          break;
        }
        i := i + 1;
      }
    }
    if typeIdx >= |z.types| {
      return false, UTC;
    }
    return true, z.types[typeIdx];
  }

  // ---- time_t, a long of 32 bits

  predicate InTime(t: int) {
    -0x8000_0000 <= t < 0x8000_0000
  }

  /** What is left of a number of seconds in a time_t. */
  function Narrow(t: int): (n: int)
    ensures InTime(n) && (InTime(t) <==> n == t)
  {
    (t + 0x8000_0000) % 0x1_0000_0000 - 0x8000_0000
  }

  /** The zone of the process, if one could be loaded. */
  datatype Db = NoDb | Loaded(zone: Zone) {
    predicate Valid() {
      Loaded? ==> zone.Valid()
    }
  }

  /** The type in force, or what is given where there is none. */
  function Found(db: Db, t: int, otherwise: TtInfo): TtInfo
    requires db.Valid()
  {
    if db.Loaded? && TypeAt(db.zone, t) < |db.zone.types| then db.zone.types[TypeAt(db.zone, t)] else otherwise
  }

  /** What the clock goes by at t: the type in force, or UTC where there is none. */
  ghost predicate Governs(db: Db, t: int, info: TtInfo)
    requires db.Valid()
  {
    match db
    case NoDb => info == UTC
    case Loaded(z) => InForce(z, t, true, info) || (InForce(z, t, false, info) && info == UTC)
  }

  lemma FoundGoverns(db: Db, t: int)
    requires db.Valid()
    ensures Governs(db, t, Found(db, t, UTC))
  {
    if db.Loaded? {
      TypeInForce(db.zone, t);
    }
  }

  /** localtime */
  method Localtime(db: Db, timer: int) returns (tm: Tm)
    requires db.Valid()
    ensures var info := Found(db, timer, UTC);
      Shows(tm, Narrow(timer + info.gmtoff)) && tm.isdst == info.isdst && tm.gmtoff == info.gmtoff
    ensures Governs(db, timer, TtInfo(tm.gmtoff, tm.isdst))
  {
    hide Shows, TypeAt, InForce;
    var success, res := false, UTC;
    if db.Loaded? {
      success, res := TzLookup(db.zone, timer);
    }
    if !success {
      res := UTC;
    }
    tm := BreakDown(Narrow(timer + res.gmtoff), res.isdst, res.gmtoff);
  }

  // ---- the two-pass correction

  /** t is a time at which local clocks show `local`. */
  predicate ShowsLocal(z: Zone, t: int, local: int)
    requires z.Usable()
  {
    t + Offset(z, t) == local
  }

  // No offset is larger than m.
  predicate OffsetsWithin(z: Zone, m: int) {
    forall k | 0 <= k < |z.types| :: -m <= z.types[k].gmtoff <= m
  }

  /** At most one transition time lies within m of the local time. */
  predicate OneTransitionNear(z: Zone, local: int, m: int) {
    forall i, j | 0 <= i < |z.transitions| && 0 <= j < |z.transitions| ::
      local - m < z.transitions[i] <= local + m && local - m < z.transitions[j] <= local + m ==>
        z.transitions[i] == z.transitions[j]
  }

  /** The time mktime settles on. */
  function TwoPass(z: Zone, local: int): int
    requires z.Usable()
  {
    var first := Offset(z, local);
    var second := Offset(z, local - first);
    if first != second then local - second else local - first
  }

  /** Between transitions the offset does not change. */
  lemma OffsetSteady(z: Zone, t: int, u: int)
    requires z.Usable() && t <= u && forall i | 0 <= i < |z.transitions| :: !(t < z.transitions[i] <= u)
    ensures Offset(z, t) == Offset(z, u)
  {
    var k := Count(z, t);
    assert Passed(z, u, k);
    PassedOnce(z, u, k, Count(z, u));
  }

  /** Around its one transition near the local time, at `at`, a zone has two offsets. */
  lemma TwoOffsets(z: Zone, local: int, m: int) returns (at: int, before: int, after: int)
    requires z.Usable() && 0 <= m && OneTransitionNear(z, local, m)
    ensures forall t | local - m <= t <= local + m :: Offset(z, t) == if t < at then before else after
  {
    before, after := Offset(z, local - m), Offset(z, local + m);
    if i :| 0 <= i < |z.transitions| && local - m < z.transitions[i] <= local + m {
      at := z.transitions[i];
    } else {
      at := local + m + 1;
    }
    forall t | local - m <= t <= local + m ensures Offset(z, t) == if t < at then before else after {
      if t < at {
        OffsetSteady(z, local - m, t);
      } else {
        OffsetSteady(z, t, local + m);
      }
    }
  }

  /** With at most one transition near, the two passes find a time that shows the local clock whenever
      there is one; if there is only one, they find that one. */
  lemma TwoPassRight(z: Zone, local: int, m: int, t: int)
    requires z.Usable() && OffsetsWithin(z, m) && OneTransitionNear(z, local, m) && ShowsLocal(z, t, local)
    ensures ShowsLocal(z, TwoPass(z, local), local)
    ensures (forall u | ShowsLocal(z, u, local) :: u == t) ==> TwoPass(z, local) == t
  {
    hide Zone.Usable, Offset, OneTransitionNear;
    OffsetBound(z, m, local);
    OffsetBound(z, m, t);
    OffsetBound(z, m, local - Offset(z, local));
    var at, before, after := TwoOffsets(z, local, m);
  }

  lemma OffsetBound(z: Zone, m: int, t: int)
    requires z.Usable() && OffsetsWithin(z, m)
    ensures -m <= Offset(z, t) <= m
  {
  }

  /** What mktime makes of the local seconds: each step is narrowed, a first lookup that fails means offset 0,
      and a second one leaves the offset it is compared with unset. */
  function Settled(db: Db, seconds: int, unset: TtInfo): int
    requires db.Valid()
  {
    var local := Narrow(seconds);
    var first := Found(db, local, UTC).gmtoff;
    var t := Narrow(local - first);
    if db.NoDb? then t
    else
      var second := Found(db, t, unset).gmtoff;
      if first != second then Narrow(local - second) else t
  }

  /** mktime: the time, and the fields it leaves behind. */
  method Mktime(db: Db, year: int, mon: int, mday: int, hour: int, min: int, sec: int, unset: TtInfo)
    returns (t: int, tm: Tm)
    requires db.Valid()
    ensures t == Settled(db, FieldSeconds(year, mon, mday, hour, min, sec), unset)
    ensures var info := Found(db, t, UTC);
      Shows(tm, Narrow(t + info.gmtoff)) && tm.isdst == info.isdst && tm.gmtoff == info.gmtoff
  {
    hide Shows, FieldSeconds, TypeAt;
    var seconds := LocalSeconds(year, mon, mday, hour, min, sec);
    var local := Narrow(seconds);
    var ok, res := false, UTC;
    if db.Loaded? {
      ok, res := TzLookup(db.zone, local);
      if !ok {
        res := UTC;
      }
    }
    t := Narrow(local - res.gmtoff);
    if db.Loaded? {
      var ok2, res2 := TzLookup(db.zone, t);
      if !ok2 {
        res2 := unset;
      }
      if res.gmtoff != res2.gmtoff {
        t := Narrow(local - res2.gmtoff);
      }
    }
    tm := Localtime(db, t);
  }

  // A number that was narrowed once on the way is narrowed to the same.
  lemma NarrowTwice(a: int, b: int)
    ensures Narrow(Narrow(a) - b) == Narrow(a - b)
  {
    var k := (a + 0x8000_0000) / 0x1_0000_0000;
    assert Narrow(a) == a - k * 0x1_0000_0000;
  }

  // Numbers less than 2^32 apart are narrowed to the same only if they are the same.
  lemma NarrowApart(a: int, b: int)
    requires -0x1_0000_0000 < a - b < 0x1_0000_0000 && Narrow(a) == Narrow(b)
    ensures a == b
  {
  }

  /** Every offset of the zone is one of 32 bits, as the zone file stores it. */
  predicate NarrowOffsets(z: Zone) {
    forall k | 0 <= k < |z.types| :: InTime(z.types[k].gmtoff)
  }

  /** In a usable zone mktime settles on the time of the two passes, on whatever local seconds, exactly when 32
      bits hold that time and the second lookup, made with the narrowed first guess, finds the same offset. */
  lemma SettledExact(z: Zone, local: int, unset: TtInfo)
    requires z.Usable() && NarrowOffsets(z)
    ensures Settled(Loaded(z), local, unset) == TwoPass(z, local) <==>
      && InTime(TwoPass(z, local))
      && Offset(z, Narrow(local - Offset(z, Narrow(local)))) == Offset(z, local - Offset(z, local))
  {
    hide TypeAt, Narrow;
    var first, second := Offset(z, Narrow(local)), Offset(z, local - Offset(z, local));
    var found := Offset(z, Narrow(local - first));
    NarrowTwice(local, first);
    NarrowTwice(local, found);
    assert Settled(Loaded(z), local, unset) == Narrow(local - found);
    assert TwoPass(z, local) == local - second;
    if Narrow(local - found) == local - second {
      assert Narrow(local - second) == local - second;
      NarrowApart(local - found, local - second);
    }
  }

  /** Two of the conditions that are enough: 32 bits hold the local seconds and the first guess. */
  lemma SettledInside(z: Zone, local: int, unset: TtInfo)
    requires z.Usable() && InTime(local) && InTime(local - Offset(z, local))
    ensures Settled(Loaded(z), local, unset) == TwoPass(z, local) <==> InTime(TwoPass(z, local))
  {
    hide TypeAt;
  }

  /** A zone an hour ahead since time 0. Its clock shows a hundred seconds more than a time_t holds at a time that
      one holds, and mktime gives a time 136 years earlier. */
  lemma TooLateAhead(unset: TtInfo)
    ensures var z, local := Zone([0], [1], [TtInfo(0, false), TtInfo(3600, false)]), 0x8000_0000 + 100;
      && z.Usable() && NarrowOffsets(z) && InTime(TwoPass(z, local)) && ShowsLocal(z, TwoPass(z, local), local)
      && Settled(Loaded(z), local, unset) == -0x8000_0000 + 100
  {
    var z, local := Zone([0], [1], [TtInfo(0, false), TtInfo(3600, false)]), 0x8000_0000 + 100;
    assert FirstStandard(z.types, 0) == 0;
    forall t ensures TypeAt(z, t) == if t < 0 then 0 else 1 {
      PassedOnce(z, t, Count(z, t), if t < 0 then 0 else 1);
    }
    hide TypeAt;
    assert Narrow(local) == -0x8000_0000 + 100;
  }

  /** Without a zone, mktime gives the seconds counted in UTC exactly when 32 bits hold them. */
  lemma SettledUtc(seconds: int, unset: TtInfo)
    ensures Settled(NoDb, seconds, unset) == seconds <==> InTime(seconds)
  {
    assert Settled(NoDb, seconds, unset) == Narrow(seconds);
  }

  /** The first local second that is too late is taken for the first one there is. */
  lemma TooLate(unset: TtInfo)
    ensures Settled(NoDb, 0x8000_0000, unset) == -0x8000_0000
  {
  }

  lemma YearZeroDay()
    ensures FieldDays(0, 0, 719529) == 1 && DayNumber(0, 0, 719529) == 0
  {
    hide DaysBeforeYear, IsLeap;
    YearZeroIsOff();
    assert ClosedForm(0) == -719527;
    assert NormalMonth(0, 0) == (0, 0);
  }

  /** Day 719529 of January of the year 0 is the first of January 1970, whose seconds start at 0; mktime gives
      those of the second. */
  lemma YearZeroTime(unset: TtInfo)
    ensures DayNumber(0, 0, 719529) == 0
    ensures Settled(NoDb, FieldSeconds(0, 0, 719529, 0, 0, 0), unset) == SECS_PER_DAY
  {
    hide DaysBeforeYear, DayNumber, FieldDays;
    YearZeroDay();
    assert FieldSeconds(0, 0, 719529, 0, 0, 0) == SECS_PER_DAY;
  }

  /** mktime of the fields localtime gave for a time: a time with the same local clock, the same time if
      no other has it; as long as the clock stays clear of both ends of time_t by the largest offset. */
  lemma LocalRoundTrip(z: Zone, t: int, tm: Tm, m: int, unset: TtInfo)
    requires z.Usable() && OffsetsWithin(z, m) && Shows(tm, Narrow(t + Offset(z, t)))
    requires tm.year >= 1 || IsLeap(tm.year - 1)
    requires InTime(t + Offset(z, t) - m) && InTime(t + Offset(z, t) + m)
    requires OneTransitionNear(z, t + Offset(z, t), m)
    ensures var local := FieldSeconds(tm.year, tm.mon, tm.mday, tm.hour, tm.min, tm.sec);
      var u := Settled(Loaded(z), local, unset);
      && local == t + Offset(z, t) && ShowsLocal(z, u, local)
      && ((forall v | ShowsLocal(z, v, local) :: v == t) ==> u == t)
  {
    hide Zone.Usable, Offset, OneTransitionNear, Shows, FieldSeconds, IsLeap, Settled;
    var local := t + Offset(z, t);
    OffsetBound(z, m, t);
    OffsetBound(z, m, local);
    OffsetBound(z, m, local - Offset(z, local));
    SecondsRoundTrip(tm, local);
    SettledInside(z, local, unset);
    TwoPassRight(z, local, m, t);
  }
}
