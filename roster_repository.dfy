/**
 * The queries of TeamMemberRepository, as functions over the members in store order. Each JPQL or
 * derived query becomes a filter, count, group or sort of that sequence.
 */
module RosterRepository {
  import opened Results
  import opened Text
  import opened Dates
  import opened Seqs
  import opened Users
  import opened RosterModel

  // ---------------------------------------------------------------- NIC lookups

  /** existsByNic(nic): some stored member has exactly this NIC. */
  predicate ExistsByNic(ms: seq<MemberRecord>, nic: string)
  {
    FirstWhere(ms, (m: MemberRecord) => m.nic == nic).Some?
  }

  /** existsByNicAndIdNot(nic, id): some stored member other than `id` has exactly this NIC. */
  predicate ExistsByNicAndIdNot(ms: seq<MemberRecord>, nic: string, id: int)
  {
    FirstWhere(ms, (m: MemberRecord) => m.nic == nic && m.id != Some(id)).Some?
  }

  lemma ExistsByNicIff(ms: seq<MemberRecord>, nic: string, id: int)
    ensures ExistsByNic(ms, nic) <==> exists i :: 0 <= i < |ms| && ms[i].nic == nic
    ensures ExistsByNicAndIdNot(ms, nic, id)
            <==> exists i :: 0 <= i < |ms| && ms[i].nic == nic && ms[i].id != Some(id)
  {
  }

  /** A holder other than `id` is in particular a holder. */
  lemma ExistsByNicAndIdNotImpliesExistsByNic(ms: seq<MemberRecord>, nic: string, id: int)
    ensures ExistsByNicAndIdNot(ms, nic, id) ==> ExistsByNic(ms, nic)
  {
    ExistsByNicIff(ms, nic, id);
  }

  // ---------------------------------------------------------------- text search

  /** LOWER(field) LIKE LOWER(CONCAT('%', term, '%')), with the term taken literally. */
  predicate Matches(field: string, term: string)
  {
    Contains(Lower(field), Lower(term))
  }

  predicate MatchesSearch(m: MemberRecord, term: string)
  {
    Matches(m.fullName, term) || Matches(m.nic, term) || Matches(m.contactNo, term)
    || Matches(m.address, term) || Matches(m.teamId, term)
  }

  /** searchTeamMembers(term): a match on full name, NIC, contact number, address or team id. */
  function SearchTeamMembers(ms: seq<MemberRecord>, term: string): (r: seq<MemberRecord>)
    ensures forall m :: m in r <==> m in ms && MatchesSearch(m, term)
  {
    Filter(ms, (m: MemberRecord) => MatchesSearch(m, term))
  }

  lemma MatchesEmptyTerm(field: string)
    ensures Matches(field, "")
  {
    assert Lower("") == "";
    ContainsEmpty(Lower(field));
  }

  /** The empty term matches every member, so the search returns the whole store. */
  lemma SearchEmptyTermIsEverything(ms: seq<MemberRecord>)
    ensures SearchTeamMembers(ms, "") == ms
  {
    forall m | m in ms ensures MatchesSearch(m, "") {
      MatchesEmptyTerm(m.fullName);
    }
    FilterAllPass(ms, (m: MemberRecord) => MatchesSearch(m, ""));
  }

  predicate MatchesSupervisorSearch(m: MemberRecord, term: string)
  {
    Matches(m.fullName, term) || Matches(m.nic, term) || Matches(m.contactNo, term) || Matches(m.teamId, term)
  }

  /** tm.supervisor.id = :supervisorId: the member has a supervisor and it has this id. */
  predicate HasSupervisorId(m: MemberRecord, supervisorId: int)
  {
    SupervisorIdOf(m.supervisor) == Some(supervisorId)
  }

  /** searchTeamMembersBySupervisor(s, term): s's members matching on name, NIC, contact or team id. */
  function SearchTeamMembersBySupervisor(ms: seq<MemberRecord>, supervisorId: int, term: string): (r: seq<MemberRecord>)
    ensures forall m :: m in r <==> m in ms && HasSupervisorId(m, supervisorId) && MatchesSupervisorSearch(m, term)
  {
    Filter(ms, (m: MemberRecord) => HasSupervisorId(m, supervisorId) && MatchesSupervisorSearch(m, term))
  }

  /** The supervisor-scoped search never finds a member the general search misses. */
  lemma SupervisorSearchWithinSearch(ms: seq<MemberRecord>, supervisorId: int, term: string)
    ensures forall m :: m in SearchTeamMembersBySupervisor(ms, supervisorId, term) ==> m in SearchTeamMembers(ms, term)
  {
  }

  /** The address is not searched under a supervisor: a match on the address alone is not enough. */
  lemma SupervisorSearchIgnoresAddress(ms: seq<MemberRecord>, supervisorId: int, term: string, m: MemberRecord)
    requires m in ms && HasSupervisorId(m, supervisorId) && Matches(m.address, term)
    requires !Matches(m.fullName, term) && !Matches(m.nic, term) && !Matches(m.contactNo, term)
    requires !Matches(m.teamId, term)
    ensures m in SearchTeamMembers(ms, term) && m !in SearchTeamMembersBySupervisor(ms, supervisorId, term)
  {
  }

  // ---------------------------------------------------------------- combined filter

  /** (:p IS NULL OR field = :p): an absent parameter imposes nothing. */
  predicate Admits<T(==)>(p: Option<T>, v: T)
  {
    p.None? || p.value == v
  }

  predicate MatchesFilters(m: MemberRecord, teamId: Option<string>, specialization: Option<Specialization>,
                           city: Option<District>, supervisorId: Option<int>)
  {
    && Admits(teamId, m.teamId) && Admits(specialization, m.specialization) && Admits(city, m.city)
    && (supervisorId.None? || SupervisorIdOf(m.supervisor) == supervisorId)
  }

  /** findByTeamIdAndSpecializationAndCityAndSupervisorId. */
  function FindByFilters(ms: seq<MemberRecord>, teamId: Option<string>, specialization: Option<Specialization>,
                         city: Option<District>, supervisorId: Option<int>): (r: seq<MemberRecord>)
    ensures forall m :: m in r <==>
      && m in ms
      && (teamId.Some? ==> m.teamId == teamId.value)
      && (specialization.Some? ==> m.specialization == specialization.value)
      && (city.Some? ==> m.city == city.value)
      && (supervisorId.Some? ==> m.supervisor.Some? && m.supervisor.value.id == supervisorId.value)
  {
    Filter(ms, (m: MemberRecord) => MatchesFilters(m, teamId, specialization, city, supervisorId))
  }

  /** With every parameter null the combined filter returns the whole store, in order. */
  lemma NoFiltersIsEverything(ms: seq<MemberRecord>)
    ensures FindByFilters(ms, None, None, None, None) == ms
  {
    FilterAllPass(ms, (m: MemberRecord) => MatchesFilters(m, None, None, None, None));
  }

  /** Setting a parameter only removes members: the result is a subsequence-by-filter of the looser one. */
  lemma FilterNarrows(ms: seq<MemberRecord>, teamId: string, specialization: Option<Specialization>,
                      city: Option<District>, supervisorId: Option<int>)
    ensures forall m :: m in FindByFilters(ms, Some(teamId), specialization, city, supervisorId)
                        ==> m in FindByFilters(ms, None, specialization, city, supervisorId) && m.teamId == teamId
  {
  }

  // ---------------------------------------------------------------- members of one supervisor

  /** Member lists are ordered by full name: every adjacent pair is in code-point order (StringLe). */
  predicate SortedByName(s: seq<MemberRecord>)
  {
    forall i :: 0 <= i < |s| - 1 ==> StringLe(s[i].fullName, s[i + 1].fullName)
  }

  function InsertByName(x: MemberRecord, s: seq<MemberRecord>): (r: seq<MemberRecord>)
    requires SortedByName(s)
    ensures SortedByName(r) && multiset(r) == multiset(s) + multiset{x}
    ensures |r| == |s| + 1 && (r[0] == x || (s != [] && r[0] == s[0]))
  {
    if s == [] then [x]
    else if StringLe(x.fullName, s[0].fullName) then [x] + s
    else
      StringLeTotal(x.fullName, s[0].fullName);
      assert s == [s[0]] + s[1..];
      [s[0]] + InsertByName(x, s[1..])
  }

  /** ORDER BY tm.fullName: a sorted permutation of its input. */
  function SortByName(s: seq<MemberRecord>): (r: seq<MemberRecord>)
    ensures SortedByName(r) && multiset(r) == multiset(s)
  {
    if s == [] then []
    else
      assert s == [s[0]] + s[1..];
      InsertByName(s[0], SortByName(s[1..]))
  }

  /** Adjacent order gives order between any two positions. */
  lemma {:induction false} SortedByNameAll(s: seq<MemberRecord>, i: int, j: int)
    requires SortedByName(s) && 0 <= i <= j < |s|
    ensures StringLe(s[i].fullName, s[j].fullName)
    decreases j - i
  {
    if i == j {
      StringLeReflexive(s[i].fullName);
    } else {
      SortedByNameAll(s, i + 1, j);
      StringLeTransitive(s[i].fullName, s[i + 1].fullName, s[j].fullName);
    }
  }

  /** findBySupervisorId(s): exactly the members whose supervisor is s, sorted by full name. */
  function FindBySupervisorId(ms: seq<MemberRecord>, supervisorId: int): (r: seq<MemberRecord>)
    ensures SortedByName(r)
    ensures multiset(r) == multiset(Filter(ms, (m: MemberRecord) => HasSupervisorId(m, supervisorId)))
    ensures forall m :: m in r <==> m in ms && HasSupervisorId(m, supervisorId)
  {
    var r := SortByName(Filter(ms, (m: MemberRecord) => HasSupervisorId(m, supervisorId)));
    assert forall m :: m in r <==> m in multiset(r);
    r
  }

  /** countBySupervisorId(s). */
  function CountBySupervisorId(ms: seq<MemberRecord>, supervisorId: int): nat
  {
    Count(ms, (m: MemberRecord) => HasSupervisorId(m, supervisorId))
  }

  /** existsBySupervisorId(s): CASE WHEN COUNT(tm) > 0. */
  predicate ExistsBySupervisorId(ms: seq<MemberRecord>, supervisorId: int)
  {
    CountBySupervisorId(ms, supervisorId) > 0
  }

  /** The listing has as many entries as the count, and the exists query holds iff some member is s's. */
  lemma SupervisorQueriesAgree(ms: seq<MemberRecord>, supervisorId: int)
    ensures |FindBySupervisorId(ms, supervisorId)| == CountBySupervisorId(ms, supervisorId)
    ensures ExistsBySupervisorId(ms, supervisorId) <==> exists i :: 0 <= i < |ms| && HasSupervisorId(ms[i], supervisorId)
  {
    var p := (m: MemberRecord) => HasSupervisorId(m, supervisorId);
    CountIsFilterLength(ms, p);
    assert |FindBySupervisorId(ms, supervisorId)| == |multiset(FindBySupervisorId(ms, supervisorId))|;
    CountPositive(ms, p);
  }

  /** findBySupervisorIsNull(). */
  function FindBySupervisorIsNull(ms: seq<MemberRecord>): (r: seq<MemberRecord>)
    ensures forall m :: m in r <==> m in ms && m.supervisor.None?
  {
    Filter(ms, (m: MemberRecord) => m.supervisor.None?)
  }

  /** The members having some supervisor (WHERE tm.supervisor IS NOT NULL). */
  function MembersWithSupervisor(ms: seq<MemberRecord>): (r: seq<MemberRecord>)
    ensures forall m :: m in r <==> m in ms && m.supervisor.Some?
  {
    Filter(ms, (m: MemberRecord) => m.supervisor.Some?)
  }

  /** Members without and with a supervisor split the store: every member lands in exactly one. */
  lemma SupervisorPartition(ms: seq<MemberRecord>)
    ensures multiset(FindBySupervisorIsNull(ms)) + multiset(MembersWithSupervisor(ms)) == multiset(ms)
    ensures forall m :: m in FindBySupervisorIsNull(ms) ==> m !in MembersWithSupervisor(ms)
  {
    FilterPartition(ms, (m: MemberRecord) => m.supervisor.None?, (m: MemberRecord) => m.supervisor.Some?);
  }

  // ---------------------------------------------------------------- grouped counts

  /** The supervisor ids that occur in the store (GROUP BY tm.supervisor.id HAVING ... IS NOT NULL). */
  function SupervisorIds(ms: seq<MemberRecord>): set<int>
  {
    set i | 0 <= i < |ms| && ms[i].supervisor.Some? :: ms[i].supervisor.value.id
  }

  /** findSupervisorTeamCounts(): each supervisor id that occurs, with its member count. */
  function SupervisorTeamCounts(ms: seq<MemberRecord>): (r: map<int, nat>)
    ensures r.Keys == SupervisorIds(ms)
    ensures forall s :: s in r ==> r[s] == CountBySupervisorId(ms, s)
  {
    map s | s in SupervisorIds(ms) :: CountBySupervisorId(ms, s)
  }

  /** Only supervisors with at least one member appear, and every such supervisor appears. */
  lemma TeamCountsPositive(ms: seq<MemberRecord>, s: int)
    ensures s in SupervisorTeamCounts(ms) <==> CountBySupervisorId(ms, s) > 0
    ensures s in SupervisorTeamCounts(ms) ==> SupervisorTeamCounts(ms)[s] >= 1
  {
    CountPositive(ms, (m: MemberRecord) => HasSupervisorId(m, s));
    if s in SupervisorIds(ms) {
      var i :| 0 <= i < |ms| && ms[i].supervisor.Some? && ms[i].supervisor.value.id == s;
      assert HasSupervisorId(ms[i], s);
    }
    if CountBySupervisorId(ms, s) > 0 {
      var i :| 0 <= i < |ms| && HasSupervisorId(ms[i], s);
      assert s in SupervisorIds(ms);
    }
  }

  /** findSupervisorsWithTeamSizeGreaterThan(k): the grouped counts strictly above k. */
  function SupervisorsWithTeamSizeGreaterThan(ms: seq<MemberRecord>, k: int): (r: map<int, nat>)
    ensures forall s :: s in r <==> s in SupervisorIds(ms) && CountBySupervisorId(ms, s) > k
    ensures forall s :: s in r ==> r[s] == CountBySupervisorId(ms, s)
  {
    var counts := SupervisorTeamCounts(ms);
    map s | s in counts && counts[s] > k :: counts[s]
  }

  /** The bound is strict: a supervisor with exactly k members is left out. */
  lemma TeamSizeBoundIsStrict(ms: seq<MemberRecord>, k: int, s: int)
    requires CountBySupervisorId(ms, s) == k
    ensures s !in SupervisorsWithTeamSizeGreaterThan(ms, k)
  {
  }

  /** findAvailableSupervisors(max): the users eligible to take another member. */
  predicate AvailableSupervisor(u: User, ms: seq<MemberRecord>, maxTeamSize: int)
  {
    u.role == "SUPERVISOR" && u.isActive && CountBySupervisorId(ms, u.id) < maxTeamSize
  }

  function FindAvailableSupervisors(users: seq<User>, ms: seq<MemberRecord>, maxTeamSize: int): (r: seq<int>)
    ensures forall id :: id in r <==> exists u :: u in users && u.id == id && AvailableSupervisor(u, ms, maxTeamSize)
  {
    var eligible := Filter(users, (u: User) => AvailableSupervisor(u, ms, maxTeamSize));
    var r := seq(|eligible|, i requires 0 <= i < |eligible| => eligible[i].id);
    assert forall u :: u in eligible ==> u.id in r by {
      forall u | u in eligible ensures u.id in r {
        var i :| 0 <= i < |eligible| && eligible[i] == u;
        assert r[i] == u.id;
      }
    }
    assert forall id :: id in r ==> exists u :: u in eligible && u.id == id by {
      forall id | id in r ensures exists u :: u in eligible && u.id == id {
        var i :| 0 <= i < |r| && r[i] == id;
        assert eligible[i] in eligible;
      }
    }
    r
  }

  /** A supervisor already holding max members (or more) is never offered. */
  lemma FullSupervisorExcluded(users: seq<User>, ms: seq<MemberRecord>, maxTeamSize: int, id: int)
    requires CountBySupervisorId(ms, id) >= maxTeamSize
    ensures id !in FindAvailableSupervisors(users, ms, maxTeamSize)
  {
  }

  // ---------------------------------------------------------------- supervisor activity and working hours

  /** findBySupervisorIdAndSupervisorActive(s): s's members, provided their supervisor is active. */
  function FindBySupervisorIdAndSupervisorActive(ms: seq<MemberRecord>, supervisorId: int): (r: seq<MemberRecord>)
    ensures forall m :: m in r <==>
      m in ms && m.supervisor.Some? && m.supervisor.value.id == supervisorId && m.supervisor.value.isActive
  {
    Filter(ms, (m: MemberRecord) => HasSupervisorId(m, supervisorId) && m.supervisor.value.isActive)
  }

  /** The active-supervisor listing holds no member the plain supervisor listing lacks, and nothing whose supervisor is inactive. */
  lemma ActiveListingWithinListing(ms: seq<MemberRecord>, supervisorId: int)
    ensures forall m :: m in FindBySupervisorIdAndSupervisorActive(ms, supervisorId) ==>
              m in FindBySupervisorId(ms, supervisorId) && m.supervisor.value.isActive
    ensures |FindBySupervisorIdAndSupervisorActive(ms, supervisorId)| <= CountBySupervisorId(ms, supervisorId)
  {
    var p := (m: MemberRecord) => HasSupervisorId(m, supervisorId);
    var q := (m: MemberRecord) => HasSupervisorId(m, supervisorId) && m.supervisor.value.isActive;
    CountIsFilterLength(ms, p);
    FilterStronger(ms, q, p);
  }

  /** findByWorkingHoursPerDay(w). */
  function FindByWorkingHoursPerDay(ms: seq<MemberRecord>, w: WorkingHours): (r: seq<MemberRecord>)
    ensures forall m :: m in r <==> m in ms && m.workingHoursPerDay == w
  {
    Filter(ms, (m: MemberRecord) => m.workingHoursPerDay == w)
  }

  /** Every member is listed under its own working hours and under no other. */
  lemma WorkingHoursGroupsPartition(ms: seq<MemberRecord>, m: MemberRecord, w: WorkingHours)
    requires m in ms
    ensures m in FindByWorkingHoursPerDay(ms, m.workingHoursPerDay)
    ensures w != m.workingHoursPerDay ==> m !in FindByWorkingHoursPerDay(ms, w)
  {
  }

  /** findBySupervisorIdAndWorkingHours(s, w). */
  function FindBySupervisorIdAndWorkingHours(ms: seq<MemberRecord>, supervisorId: int, w: WorkingHours)
    : (r: seq<MemberRecord>)
    ensures forall m :: m in r <==>
      m in ms && m.supervisor.Some? && m.supervisor.value.id == supervisorId && m.workingHoursPerDay == w
  {
    Filter(ms, (m: MemberRecord) => HasSupervisorId(m, supervisorId) && m.workingHoursPerDay == w)
  }

  /** The scoped query is the intersection of the working-hours listing and the supervisor listing. */
  lemma SupervisorWorkingHoursIsIntersection(ms: seq<MemberRecord>, supervisorId: int, w: WorkingHours)
    ensures forall m :: m in FindBySupervisorIdAndWorkingHours(ms, supervisorId, w) <==>
              m in FindByWorkingHoursPerDay(ms, w) && m in FindBySupervisorId(ms, supervisorId)
  {
  }

  // ---------------------------------------------------------------- date range

  /** findByJoinedDateBetween(a, b): SQL BETWEEN, inclusive at both ends. */
  function FindByJoinedDateBetween(ms: seq<MemberRecord>, start: LocalDate, end: LocalDate): (r: seq<MemberRecord>)
    ensures forall m :: m in r <==> m in ms && OnOrBefore(start, m.joinedDate) && OnOrBefore(m.joinedDate, end)
  {
    Filter(ms, (m: MemberRecord) => OnOrBefore(start, m.joinedDate) && OnOrBefore(m.joinedDate, end))
  }

  /** Members who joined on either end date are included; an empty range returns nothing. */
  lemma JoinedDateRangeInclusive(ms: seq<MemberRecord>, start: LocalDate, end: LocalDate, m: MemberRecord)
    requires m in ms && OnOrBefore(start, end)
    ensures m.joinedDate == start ==> m in FindByJoinedDateBetween(ms, start, end)
    ensures m.joinedDate == end ==> m in FindByJoinedDateBetween(ms, start, end)
  {
  }

  lemma EmptyJoinedDateRange(ms: seq<MemberRecord>, start: LocalDate, end: LocalDate)
    requires Before(end, start)
    ensures FindByJoinedDateBetween(ms, start, end) == []
  {
  }

  /** findBySupervisorIdAndJoinedDateBetween(s, a, b): s's members who joined in the inclusive range. */
  function FindBySupervisorIdAndJoinedDateBetween(ms: seq<MemberRecord>, supervisorId: int,
                                                  start: LocalDate, end: LocalDate): (r: seq<MemberRecord>)
    ensures forall m :: m in r <==>
      && m in ms && m.supervisor.Some? && m.supervisor.value.id == supervisorId
      && OnOrBefore(start, m.joinedDate) && OnOrBefore(m.joinedDate, end)
  {
    Filter(ms, (m: MemberRecord) =>
      HasSupervisorId(m, supervisorId) && OnOrBefore(start, m.joinedDate) && OnOrBefore(m.joinedDate, end))
  }

  /** The scoped date query is the intersection of the date-range listing and the supervisor listing. */
  lemma SupervisorJoinedDateIsIntersection(ms: seq<MemberRecord>, supervisorId: int, start: LocalDate, end: LocalDate)
    ensures forall m :: m in FindBySupervisorIdAndJoinedDateBetween(ms, supervisorId, start, end) <==>
              m in FindByJoinedDateBetween(ms, start, end) && m in FindBySupervisorId(ms, supervisorId)
  {
  }
}
