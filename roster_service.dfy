/**
 * TeamMemberService: the roster store, the checks each write performs and the order it performs them
 * in, and the records each successful write stores. Each operation is a function of the store before
 * it; the TeamMemberService class performs the same steps on TeamMember entities and is proved to
 * produce exactly those results.
 */
module RosterService {
  import opened Results
  import opened Text
  import opened Dates
  import opened Seqs
  import opened Users
  import opened RosterModel
  import opened RosterRepository

  /** The TeamMemberDTO fields the service reads; enums arrive as strings. */
  datatype MemberRequest = MemberRequest(
    fullName: string,
    nic: string,
    contactNo: string,
    birthDate: LocalDate,
    address: string,
    city: string,
    specialization: string,
    joinedDate: LocalDate,
    workingHoursPerDay: string,
    teamId: string,
    supervisorId: Option<int>)

  /** The IllegalArgumentExceptions the service raises (Enum.valueOf's included), one per cause. */
  datatype RosterError =
    | AgeOutOfRange
    | DuplicateNic(nic: string)
    | SupervisorNotFound(supervisorId: int)
    | UnknownDistrict(city: string)
    | UnknownSpecialization(specialization: string)
    | InvalidWorkingHours(hours: string)

  /** The team-member table: records under their ids, the order findAll() returns them in, and the next id. */
  datatype Roster = Roster(records: map<int, MemberRecord>, order: seq<int>, nextId: int)

  /** Every record sits under its own id, below nextId, with a birth date and an age; order lists each id once. */
  ghost predicate ValidRoster(r: Roster)
  {
    && (forall k :: k in r.records <==> k in r.order)
    && (forall k :: k in r.order ==> multiset(r.order)[k] == 1)
    && (forall k :: k in r.records ==>
          && r.records[k].id == Some(k) && k < r.nextId
          && r.records[k].birthDate.Some? && r.records[k].age.Some?)
  }

  function MembersIn(records: map<int, MemberRecord>, order: seq<int>): seq<MemberRecord>
  {
    if order == [] then []
    else (if order[0] in records then [records[order[0]]] else []) + MembersIn(records, order[1..])
  }

  /** findAll(): the stored records in store order. */
  function FindAll(r: Roster): seq<MemberRecord>
  {
    MembersIn(r.records, r.order)
  }

  lemma {:induction false} MembersInAppend(records: map<int, MemberRecord>, order: seq<int>, k: int)
    requires k in records
    ensures MembersIn(records, order + [k]) == MembersIn(records, order) + [records[k]]
  {
    if order != [] {
      assert (order + [k])[1..] == order[1..] + [k];
      MembersInAppend(records, order[1..], k);
    }
  }

  lemma {:induction false} MembersInUntouched(records: map<int, MemberRecord>, order: seq<int>, k: int, x: MemberRecord)
    requires k !in order
    ensures MembersIn(records[k := x], order) == MembersIn(records, order)
  {
    if order != [] {
      MembersInUntouched(records, order[1..], k, x);
    }
  }

  /** The listed records are exactly the records of the listed ids. */
  lemma {:induction false} MembersInIff(records: map<int, MemberRecord>, order: seq<int>, m: MemberRecord)
    ensures m in MembersIn(records, order) <==> exists k :: k in order && k in records && records[k] == m
  {
    if order != [] {
      MembersInIff(records, order[1..], m);
      if m in MembersIn(records, order[1..]) {
        var k :| k in order[1..] && k in records && records[k] == m;
        assert k in order;
      }
      if exists k :: k in order && k in records && records[k] == m {
        var k :| k in order && k in records && records[k] == m;
        if k != order[0] {
          assert k in order[1..];
        }
      }
    }
  }

  lemma StoredIsListed(r: Roster, k: int)
    requires ValidRoster(r) && k in r.records
    ensures r.records[k] in FindAll(r)
  {
    MembersInIff(r.records, r.order, r.records[k]);
  }

  lemma ListedIsStored(r: Roster, m: MemberRecord)
    requires ValidRoster(r) && m in FindAll(r)
    ensures m.id.Some? && m.id.value in r.records && r.records[m.id.value] == m
  {
    MembersInIff(r.records, r.order, m);
  }

  // ---------------------------------------------------------------- validateAge

  /** validateAge: the whole years between birth and today lie in [18, 80]. */
  predicate AgeAccepted(birth: LocalDate, today: LocalDate)
  {
    18 <= PeriodYears(birth, today) <= 80
  }

  /** The accepted birth dates are those whose anniversary-counted age on today is 18 to 80. */
  lemma AgeAcceptedIff(birth: LocalDate, today: LocalDate)
    ensures AgeAccepted(birth, today) <==>
            OnOrBefore(birth, today)
            && 18 <= today.year - birth.year - (if EarlierInYear(today, birth) then 1 else 0) <= 80
  {
    if OnOrBefore(birth, today) {
      WholeYearsElapsed(birth, today);
    } else {
      PeriodYearsBeforeStart(birth, today);
    }
  }

  /** On 2024-06-01, 18 and 80 are accepted while 17 and 81 are not. */
  lemma AgeBoundaryExamples()
    ensures AgeAccepted(Date(2006, 6, 1), Date(2024, 6, 1))
    ensures !AgeAccepted(Date(2006, 6, 2), Date(2024, 6, 1))
    ensures AgeAccepted(Date(1943, 6, 2), Date(2024, 6, 1))
    ensures !AgeAccepted(Date(1943, 6, 1), Date(2024, 6, 1))
  {
    AgeAcceptedIff(Date(2006, 6, 1), Date(2024, 6, 1));
    AgeAcceptedIff(Date(2006, 6, 2), Date(2024, 6, 1));
    AgeAcceptedIff(Date(1943, 6, 2), Date(2024, 6, 1));
    AgeAcceptedIff(Date(1943, 6, 1), Date(2024, 6, 1));
  }

  // ---------------------------------------------------------------- building the entity

  /** userRepository.findById for a supplied supervisor id; no id means no supervisor. */
  function ResolveSupervisor(users: seq<User>, supervisorId: Option<int>): (r: Result<Option<User>, RosterError>)
    ensures supervisorId.None? ==> r == Success(None)
    ensures supervisorId.Some? && r.Success? ==>
              r.value.Some? && r.value.value in users && r.value.value.id == supervisorId.value
    ensures supervisorId.Some? && r.Failure? ==>
              r.error == SupervisorNotFound(supervisorId.value) && forall i :: 0 <= i < |users| ==> users[i].id != supervisorId.value
  {
    match supervisorId
    case None => Success(None)
    case Some(id) =>
      match FindById(users, id)
      case None => Failure(SupervisorNotFound(id))
      case Some(u) => Success(Some(u))
  }

  /** convertToEntity: strings trimmed, enums parsed (city, then specialization, then hours), age derived. */
  function Converted(dto: MemberRequest, supervisor: Option<User>, today: LocalDate): Result<MemberRecord, RosterError>
  {
    var city := ParseDistrict(dto.city);
    var specialization := ParseSpecialization(dto.specialization);
    var hours := ParseWorkingHours(dto.workingHoursPerDay);
    if city.None? then Failure(UnknownDistrict(dto.city))
    else if specialization.None? then Failure(UnknownSpecialization(dto.specialization))
    else if hours.None? then Failure(InvalidWorkingHours(dto.workingHoursPerDay))
    else Success(MemberRecord(None, Trim(dto.fullName), Trim(dto.nic), dto.contactNo, Some(dto.birthDate),
                              CalculatedAge(Some(dto.birthDate), None, today), Trim(dto.address), city.value,
                              specialization.value, dto.joinedDate, hours.value, dto.teamId, supervisor, None, None))
  }

  /** Conversion fails exactly on an unknown city, specialization or hours label; otherwise it builds this record. */
  lemma ConvertedSpec(dto: MemberRequest, supervisor: Option<User>, today: LocalDate)
    ensures var c := Converted(dto, supervisor, today);
            && (ParseDistrict(dto.city).None? ==> c == Failure(UnknownDistrict(dto.city)))
            && (c.Success? <==> ParseDistrict(dto.city).Some? && ParseSpecialization(dto.specialization).Some?
                                && dto.workingHoursPerDay in HoursLabels)
    ensures var c := Converted(dto, supervisor, today);
            c.Success? ==>
              && c.value.id.None? && c.value.createdAt.None? && c.value.updatedAt.None?
              && c.value.fullName == Trim(dto.fullName) && c.value.nic == Trim(dto.nic)
              && c.value.address == Trim(dto.address) && c.value.contactNo == dto.contactNo
              && c.value.teamId == dto.teamId && c.value.joinedDate == dto.joinedDate
              && c.value.birthDate == Some(dto.birthDate) && c.value.age == Some(PeriodYears(dto.birthDate, today))
              && DistrictName(c.value.city) == Upper(dto.city)
              && SpecializationName(c.value.specialization) == Upper(dto.specialization)
              && Hours(c.value.workingHoursPerDay) == dto.workingHoursPerDay
              && c.value.supervisor == supervisor
  {
  }

  // ---------------------------------------------------------------- createTeamMember

  /** createTeamMember: age, then NIC (as submitted), then supervisor, then conversion; then @PrePersist. */
  function CreateResult(r: Roster, users: seq<User>, dto: MemberRequest, now: DateTime, today: LocalDate)
    : Result<MemberRecord, RosterError>
  {
    if !AgeAccepted(dto.birthDate, today) then Failure(AgeOutOfRange)
    else if ExistsByNic(FindAll(r), dto.nic) then Failure(DuplicateNic(dto.nic))
    else match ResolveSupervisor(users, dto.supervisorId)
      case Failure(e) => Failure(e)
      case Success(supervisor) =>
        match Converted(dto, supervisor, today)
        case Failure(e) => Failure(e)
        case Success(entity) => Success(OnCreated(entity.(id := Some(r.nextId)), now, today))
  }

  /** The record a successful create stores: next id, both timestamps now, trimmed strings, derived age, the given supervisor. */
  lemma CreateSuccess(r: Roster, users: seq<User>, dto: MemberRequest, now: DateTime, today: LocalDate)
    requires CreateResult(r, users, dto, now, today).Success?
    ensures var rec := CreateResult(r, users, dto, now, today).value;
            && AgeAccepted(dto.birthDate, today) && !ExistsByNic(FindAll(r), dto.nic)
            && rec.id == Some(r.nextId) && rec.createdAt == Some(now) && rec.updatedAt == Some(now)
            && rec.fullName == Trim(dto.fullName) && rec.nic == Trim(dto.nic) && rec.address == Trim(dto.address)
            && rec.contactNo == dto.contactNo && rec.teamId == dto.teamId && rec.joinedDate == dto.joinedDate
            && rec.birthDate == Some(dto.birthDate)
            && rec.age == Some(PeriodYears(dto.birthDate, today)) && 18 <= rec.age.value <= 80
            && DistrictName(rec.city) == Upper(dto.city)
            && SpecializationName(rec.specialization) == Upper(dto.specialization)
            && Hours(rec.workingHoursPerDay) == dto.workingHoursPerDay
            && (dto.supervisorId.None? ==> rec.supervisor.None?)
            && (dto.supervisorId.Some? ==>
                  rec.supervisor.Some? && rec.supervisor.value in users && rec.supervisor.value.id == dto.supervisorId.value)
  {
    var supervisor := ResolveSupervisor(users, dto.supervisorId);
    ConvertedSpec(dto, supervisor.value, today);
  }

  /** The result of a create whose checks pass and whose conversion builds `built`. */
  lemma CreateResultIs(r: Roster, users: seq<User>, dto: MemberRequest, now: DateTime, today: LocalDate,
                       supervisor: Option<User>, built: MemberRecord)
    requires AgeAccepted(dto.birthDate, today) && !ExistsByNic(FindAll(r), dto.nic)
    requires ResolveSupervisor(users, dto.supervisorId) == Success(supervisor)
    requires Converted(dto, supervisor, today) == Success(built)
    ensures CreateResult(r, users, dto, now, today) == Success(OnCreated(built.(id := Some(r.nextId)), now, today))
    ensures built.birthDate.Some? && OnCreated(built.(id := Some(r.nextId)), now, today).age.Some?
  {
    ConvertedSpec(dto, supervisor, today);
  }

  /** save() of a new entity: stored under the next id and appended to the store order. */
  function Inserted(r: Roster, rec: MemberRecord): Roster
  {
    Roster(r.records[r.nextId := rec], r.order + [r.nextId], r.nextId + 1)
  }

  /** The failure cases of create, in the order the code checks them, and when it succeeds. */
  lemma CreateChecks(r: Roster, users: seq<User>, dto: MemberRequest, now: DateTime, today: LocalDate)
    ensures !AgeAccepted(dto.birthDate, today) ==> CreateResult(r, users, dto, now, today) == Failure(AgeOutOfRange)
    ensures AgeAccepted(dto.birthDate, today) && ExistsByNic(FindAll(r), dto.nic) ==>
              CreateResult(r, users, dto, now, today) == Failure(DuplicateNic(dto.nic))
    ensures CreateResult(r, users, dto, now, today).Success? <==>
              && AgeAccepted(dto.birthDate, today) && !ExistsByNic(FindAll(r), dto.nic)
              && (dto.supervisorId.Some? ==> FindById(users, dto.supervisorId.value).Some?)
              && ParseDistrict(dto.city).Some? && ParseSpecialization(dto.specialization).Some?
              && dto.workingHoursPerDay in HoursLabels
  {
  }

  /** Create checks the age before the NIC: an under-age request with a taken NIC reports the age. */
  lemma CreateChecksAgeBeforeNic(r: Roster, users: seq<User>, dto: MemberRequest, now: DateTime, today: LocalDate)
    requires !AgeAccepted(dto.birthDate, today) && ExistsByNic(FindAll(r), dto.nic)
    ensures CreateResult(r, users, dto, now, today) == Failure(AgeOutOfRange)
  {
  }

  /** Inserting a record that carries the next id keeps the store valid and appends it to findAll(). */
  lemma InsertedValid(r: Roster, rec: MemberRecord)
    requires ValidRoster(r) && rec.id == Some(r.nextId) && rec.birthDate.Some? && rec.age.Some?
    ensures ValidRoster(Inserted(r, rec))
    ensures r.nextId !in r.records && Inserted(r, rec).records.Keys == r.records.Keys + {r.nextId}
    ensures forall k :: k in r.records ==> Inserted(r, rec).records[k] == r.records[k]
    ensures FindAll(Inserted(r, rec)) == FindAll(r) + [rec]
  {
    var n := r.nextId;
    assert n !in r.order;
    InsertedKeepsValid(r, rec);
    MembersInAppend(r.records[n := rec], r.order, n);
    MembersInUntouched(r.records, r.order, n, rec);
  }

  /** The store invariant part of InsertedValid: the new id is listed once and the new record carries it. */
  lemma InsertedKeepsValid(r: Roster, rec: MemberRecord)
    requires ValidRoster(r) && rec.id == Some(r.nextId) && rec.birthDate.Some? && rec.age.Some?
    ensures ValidRoster(Inserted(r, rec))
  {
    var n := r.nextId;
    var r2 := Inserted(r, rec);
    assert n !in r.order;
    assert multiset(r2.order) == multiset(r.order) + multiset{n};
    assert forall k :: k in r2.records <==> k in r2.order;
    assert forall k :: k in r2.order ==> multiset(r2.order)[k] == 1;
  }

  /** A successful create adds exactly one record, at the end of findAll(), and touches no other. */
  lemma CreateAddsExactlyOne(r: Roster, users: seq<User>, dto: MemberRequest, now: DateTime, today: LocalDate)
    requires ValidRoster(r) && CreateResult(r, users, dto, now, today).Success?
    ensures var rec := CreateResult(r, users, dto, now, today).value;
            && ValidRoster(Inserted(r, rec))
            && Inserted(r, rec).records.Keys == r.records.Keys + {r.nextId} && r.nextId !in r.records
            && (forall k :: k in r.records ==> Inserted(r, rec).records[k] == r.records[k])
            && FindAll(Inserted(r, rec)) == FindAll(r) + [rec]
  {
    InsertedValid(r, CreateResult(r, users, dto, now, today).value);
  }

  /** After a create, a second request with the stored (trimmed) NIC is refused as a duplicate. */
  lemma SecondCreateConflicts(r: Roster, users: seq<User>, dto: MemberRequest, dto2: MemberRequest,
                              now: DateTime, now2: DateTime, today: LocalDate, today2: LocalDate)
    requires ValidRoster(r) && CreateResult(r, users, dto, now, today).Success?
    requires AgeAccepted(dto2.birthDate, today2) && dto2.nic == Trim(dto.nic)
    ensures var r2 := Inserted(r, CreateResult(r, users, dto, now, today).value);
            CreateResult(r2, users, dto2, now2, today2) == Failure(DuplicateNic(dto2.nic))
  {
    var rec := CreateResult(r, users, dto, now, today).value;
    InsertedValid(r, rec);
    var all := FindAll(Inserted(r, rec));
    assert all[|all| - 1] == rec;
    ExistsByNicIff(all, dto2.nic, 0);
  }

  /** No two stored records share a NIC. */
  ghost predicate UniqueNics(r: Roster)
  {
    forall a, b :: a in r.records && b in r.records && a != b ==> r.records[a].nic != r.records[b].nic
  }

  /**
   * Create keeps NICs unique when the submitted NIC has nothing to trim (true of every NIC matching the
   * 12-digit pattern, by DigitFieldsAreTrimmed).
   */
  lemma CreatePreservesUniqueNics(r: Roster, users: seq<User>, dto: MemberRequest, now: DateTime, today: LocalDate)
    requires ValidRoster(r) && UniqueNics(r) && Trim(dto.nic) == dto.nic
    requires CreateResult(r, users, dto, now, today).Success?
    ensures UniqueNics(Inserted(r, CreateResult(r, users, dto, now, today).value))
  {
    var rec := CreateResult(r, users, dto, now, today).value;
    CreateSuccess(r, users, dto, now, today);
    NoHolderAfterCheck(r, dto.nic);
    InsertPreservesUniqueNics(r, rec);
  }

  /** A NIC for which existsByNic is false is held by no stored record. */
  lemma NoHolderAfterCheck(r: Roster, nic: string)
    requires ValidRoster(r) && !ExistsByNic(FindAll(r), nic)
    ensures forall k :: k in r.records ==> r.records[k].nic != nic
  {
    ExistsByNicIff(FindAll(r), nic, 0);
    forall k | k in r.records ensures r.records[k].nic != nic {
      StoredIsListed(r, k);
    }
  }

  lemma InsertPreservesUniqueNics(r: Roster, rec: MemberRecord)
    requires ValidRoster(r) && UniqueNics(r)
    requires forall k :: k in r.records ==> r.records[k].nic != rec.nic
    ensures UniqueNics(Inserted(r, rec))
  {
    assert r.nextId !in r.records;
  }

  /**
   * The duplicate check compares the NIC as submitted but the trimmed NIC is stored: a request whose
   * NIC differs from a stored one only by surrounding blanks passes and stores a second holder.
   */
  lemma UntrimmedNicStoresDuplicate(r: Roster, users: seq<User>, dto: MemberRequest, now: DateTime,
                                    today: LocalDate, holder: int)
    requires ValidRoster(r) && holder in r.records && r.records[holder].nic == Trim(dto.nic)
    requires CreateResult(r, users, dto, now, today).Success?
    ensures var r2 := Inserted(r, CreateResult(r, users, dto, now, today).value);
            holder != r.nextId && r2.records[holder].nic == r2.records[r.nextId].nic && !UniqueNics(r2)
  {
  }

  /** That case is reachable: a member holds 200012345678 and the request says " 200012345678". */
  lemma UntrimmedNicExample(holder: MemberRecord, dto: MemberRequest, now: DateTime, today: LocalDate)
    requires holder.id == Some(1) && holder.nic == "200012345678"
    requires holder.birthDate.Some? && holder.age.Some?
    requires dto.nic == " 200012345678" && AgeAccepted(dto.birthDate, today) && dto.supervisorId.None?
    requires ParseDistrict(dto.city).Some? && ParseSpecialization(dto.specialization).Some?
    requires dto.workingHoursPerDay == "8"
    ensures var r := Roster(map[1 := holder], [1], 2);
            && ValidRoster(r)
            && CreateResult(r, [], dto, now, today).Success?
            && !UniqueNics(Inserted(r, CreateResult(r, [], dto, now, today).value))
  {
    var r := Roster(map[1 := holder], [1], 2);
    SingletonStore(holder);
    PaddedNicPassesCheck(holder, dto.nic);
    assert dto.workingHoursPerDay in HoursLabels;
    CreateChecks(r, [], dto, now, today);
    UntrimmedNicStoresDuplicate(r, [], dto, now, today, 1);
  }

  lemma SingletonStore(holder: MemberRecord)
    requires holder.id == Some(1) && holder.birthDate.Some? && holder.age.Some?
    ensures ValidRoster(Roster(map[1 := holder], [1], 2))
    ensures FindAll(Roster(map[1 := holder], [1], 2)) == [holder]
  {
    assert MembersIn(map[1 := holder], [1][1..]) == [];
  }

  lemma PaddedNicPassesCheck(holder: MemberRecord, nic: string)
    requires holder.nic == "200012345678" && nic == " 200012345678"
    ensures !ExistsByNic([holder], nic) && Trim(nic) == holder.nic
  {
    assert |holder.nic| != |nic|;
    ExistsByNicIff([holder], nic, 0);
    assert TrimStart(nic) == nic[1..];
    TrimNoOp(nic[1..]);
  }

  // ---------------------------------------------------------------- updateTeamMember

  /**
   * updateTeamMember: absent id gives None; NIC (only if changed and held by another id), then age,
   * then supervisor, then conversion; id and createdAt carried over; then @PreUpdate.
   */
  function UpdateResult(r: Roster, users: seq<User>, id: int, dto: MemberRequest, now: DateTime, today: LocalDate)
    : Result<Option<MemberRecord>, RosterError>
  {
    if id !in r.records then Success(None)
    else
      var existing := r.records[id];
      if existing.nic != dto.nic && ExistsByNicAndIdNot(FindAll(r), dto.nic, id) then Failure(DuplicateNic(dto.nic))
      else if !AgeAccepted(dto.birthDate, today) then Failure(AgeOutOfRange)
      else match ResolveSupervisor(users, dto.supervisorId)
        case Failure(e) => Failure(e)
        case Success(supervisor) =>
          match Converted(dto, supervisor, today)
          case Failure(e) => Failure(e)
          case Success(entity) =>
            Success(Some(OnUpdated(entity.(id := Some(id), createdAt := existing.createdAt), now, today)))
  }

  /** An absent id gives None; a present one either fails or gives the rebuilt record with the old id and createdAt. */
  lemma UpdateSuccess(r: Roster, users: seq<User>, id: int, dto: MemberRequest, now: DateTime, today: LocalDate)
    ensures id !in r.records ==> UpdateResult(r, users, id, dto, now, today) == Success(None)
    ensures id in r.records && UpdateResult(r, users, id, dto, now, today).Success? ==>
              UpdateResult(r, users, id, dto, now, today).value.Some?
    ensures var res := UpdateResult(r, users, id, dto, now, today);
            res.Success? && res.value.Some? ==>
              var rec := res.value.value;
              && id in r.records && AgeAccepted(dto.birthDate, today)
              && (r.records[id].nic == dto.nic || !ExistsByNicAndIdNot(FindAll(r), dto.nic, id))
              && rec.id == Some(id) && rec.createdAt == r.records[id].createdAt && rec.updatedAt == Some(now)
              && rec.fullName == Trim(dto.fullName) && rec.nic == Trim(dto.nic) && rec.address == Trim(dto.address)
              && rec.contactNo == dto.contactNo && rec.teamId == dto.teamId && rec.joinedDate == dto.joinedDate
              && rec.birthDate == Some(dto.birthDate)
              && rec.age == Some(PeriodYears(dto.birthDate, today)) && 18 <= rec.age.value <= 80
              && (dto.supervisorId.None? ==> rec.supervisor.None?)
              && (dto.supervisorId.Some? ==>
                    rec.supervisor.Some? && rec.supervisor.value in users && rec.supervisor.value.id == dto.supervisorId.value)
  {
    if id in r.records && UpdateResult(r, users, id, dto, now, today).Success? {
      var supervisor := ResolveSupervisor(users, dto.supervisorId);
      ConvertedSpec(dto, supervisor.value, today);
    }
  }

  /** The result of an update of a present id whose checks pass and whose conversion builds `built`. */
  lemma UpdateResultIs(r: Roster, users: seq<User>, id: int, dto: MemberRequest, now: DateTime, today: LocalDate,
                       supervisor: Option<User>, built: MemberRecord)
    requires id in r.records
    requires r.records[id].nic == dto.nic || !ExistsByNicAndIdNot(FindAll(r), dto.nic, id)
    requires AgeAccepted(dto.birthDate, today)
    requires ResolveSupervisor(users, dto.supervisorId) == Success(supervisor)
    requires Converted(dto, supervisor, today) == Success(built)
    ensures UpdateResult(r, users, id, dto, now, today)
            == Success(Some(OnUpdated(built.(id := Some(id), createdAt := r.records[id].createdAt), now, today)))
    ensures built.birthDate.Some?
  {
    ConvertedSpec(dto, supervisor, today);
  }

  /** save() of an existing entity: the record under its id is replaced. */
  function Replaced(r: Roster, id: int, rec: MemberRecord): Roster
  {
    r.(records := r.records[id := rec])
  }

  /** Resubmitting the member's own NIC never raises a conflict. */
  lemma UpdateOwnNicNoConflict(r: Roster, users: seq<User>, id: int, dto: MemberRequest, now: DateTime, today: LocalDate)
    requires id in r.records && dto.nic == r.records[id].nic
    ensures forall n :: UpdateResult(r, users, id, dto, now, today) != Failure(DuplicateNic(n))
  {
  }

  /** A NIC conflict on update means another stored member holds the submitted NIC. */
  lemma UpdateConflictHasOtherHolder(r: Roster, users: seq<User>, id: int, dto: MemberRequest, now: DateTime, today: LocalDate)
    requires ValidRoster(r) && UpdateResult(r, users, id, dto, now, today) == Failure(DuplicateNic(dto.nic))
    ensures exists k :: k in r.records && k != id && r.records[k].nic == dto.nic
  {
    ExistsByNicIff(FindAll(r), dto.nic, id);
    var i :| 0 <= i < |FindAll(r)| && FindAll(r)[i].nic == dto.nic && FindAll(r)[i].id != Some(id);
    var m := FindAll(r)[i];
    ListedIsStored(r, m);
    var k := m.id.value;
    assert k in r.records && k != id && r.records[k].nic == dto.nic;
  }

  /** Update checks the NIC before the age: an under-age request with another holder's NIC reports the NIC. */
  lemma UpdateChecksNicBeforeAge(r: Roster, users: seq<User>, id: int, dto: MemberRequest, now: DateTime, today: LocalDate)
    requires id in r.records && r.records[id].nic != dto.nic && ExistsByNicAndIdNot(FindAll(r), dto.nic, id)
    requires !AgeAccepted(dto.birthDate, today)
    ensures UpdateResult(r, users, id, dto, now, today) == Failure(DuplicateNic(dto.nic))
  {
  }

  /** A successful update replaces only the target record and keeps the store valid. */
  lemma UpdateReplacesOnlyTarget(r: Roster, users: seq<User>, id: int, dto: MemberRequest, now: DateTime, today: LocalDate)
    requires ValidRoster(r) && UpdateResult(r, users, id, dto, now, today).Success?
    requires UpdateResult(r, users, id, dto, now, today).value.Some?
    ensures var r2 := Replaced(r, id, UpdateResult(r, users, id, dto, now, today).value.value);
            && ValidRoster(r2) && r2.records.Keys == r.records.Keys && r2.order == r.order
            && forall k :: k in r.records && k != id ==> r2.records[k] == r.records[k]
  {
  }

  /** Update keeps NICs unique when the submitted NIC has nothing to trim. */
  lemma UpdatePreservesUniqueNics(r: Roster, users: seq<User>, id: int, dto: MemberRequest, now: DateTime, today: LocalDate)
    requires ValidRoster(r) && UniqueNics(r) && Trim(dto.nic) == dto.nic
    requires UpdateResult(r, users, id, dto, now, today).Success?
    requires UpdateResult(r, users, id, dto, now, today).value.Some?
    ensures UniqueNics(Replaced(r, id, UpdateResult(r, users, id, dto, now, today).value.value))
  {
    var rec := UpdateResult(r, users, id, dto, now, today).value.value;
    UpdateSuccess(r, users, id, dto, now, today);
    assert rec.nic == dto.nic;
    if r.records[id].nic != dto.nic {
      NoOtherHolderAfterCheck(r, dto.nic, id);
    }
    ReplacePreservesUniqueNics(r, id, rec);
  }

  /** A NIC for which existsByNicAndIdNot(nic, id) is false is held by no stored record other than `id`. */
  lemma NoOtherHolderAfterCheck(r: Roster, nic: string, id: int)
    requires ValidRoster(r) && !ExistsByNicAndIdNot(FindAll(r), nic, id)
    ensures forall k :: k in r.records && k != id ==> r.records[k].nic != nic
  {
    ExistsByNicIff(FindAll(r), nic, id);
    forall k | k in r.records && k != id ensures r.records[k].nic != nic {
      StoredIsListed(r, k);
    }
  }

  /** Replacing a record by one whose NIC no other stored record holds keeps NICs unique. */
  lemma ReplacePreservesUniqueNics(r: Roster, id: int, rec: MemberRecord)
    requires UniqueNics(r) && id in r.records
    requires forall k :: k in r.records && k != id ==> r.records[k].nic != rec.nic
    ensures UniqueNics(Replaced(r, id, rec))
  {
  }

  // ---------------------------------------------------------------- deleteTeamMember

  /** deleteTeamMember: whether the id was present, and the store without it. */
  function Deleted(r: Roster, id: int): (res: (bool, Roster))
    ensures res.0 <==> id in r.records
    ensures res.1.records.Keys == r.records.Keys - {id}
    ensures forall k :: k in res.1.records ==> res.1.records[k] == r.records[k]
  {
    if id in r.records then
      (true, Roster(r.records - {id}, Filter(r.order, (k: int) => k != id), r.nextId))
    else (false, r)
  }

  lemma DeleteKeepsValid(r: Roster, id: int)
    requires ValidRoster(r)
    ensures ValidRoster(Deleted(r, id).1)
    ensures id !in Deleted(r, id).1.records
  {
  }

  // ---------------------------------------------------------------- supervisor assignment

  /** updateSupervisor: absent member gives None; an unknown supervisor id fails; else set it and save. */
  function UpdateSupervisorResult(r: Roster, users: seq<User>, memberId: int, supervisorId: Option<int>,
                                  now: DateTime, today: LocalDate): (res: Result<Option<MemberRecord>, RosterError>)
    ensures memberId !in r.records ==> res == Success(None)
    ensures memberId in r.records ==>
              (res.Failure? <==> supervisorId.Some? && FindById(users, supervisorId.value).None?)
    ensures memberId in r.records && res.Success? ==> res.value.Some?
    ensures res.Success? && res.value.Some? ==>
      && memberId in r.records
      && res.value.value.(supervisor := r.records[memberId].supervisor, age := r.records[memberId].age,
                          updatedAt := r.records[memberId].updatedAt) == r.records[memberId]
      && SupervisorIdOf(res.value.value.supervisor) == supervisorId
      && (supervisorId.None? ==> res.value.value.supervisor.None?)
      && (supervisorId.Some? ==> res.value.value.supervisor == FindById(users, supervisorId.value))
      && res.value.value.updatedAt == Some(now)
  {
    if memberId !in r.records then Success(None)
    else match ResolveSupervisor(users, supervisorId)
      case Failure(e) => Failure(e)
      case Success(supervisor) => Success(Some(OnUpdated(r.records[memberId].(supervisor := supervisor), now, today)))
  }

  /** removeSupervisor: absent member gives None; else clear the supervisor and save. */
  function RemoveSupervisorResult(r: Roster, memberId: int, now: DateTime, today: LocalDate): (res: Option<MemberRecord>)
    ensures res.None? <==> memberId !in r.records
    ensures res.Some? ==>
      && res.value.supervisor.None? && res.value.updatedAt == Some(now)
      && res.value.(supervisor := r.records[memberId].supervisor, age := r.records[memberId].age,
                    updatedAt := r.records[memberId].updatedAt) == r.records[memberId]
  {
    if memberId !in r.records then None
    else Some(OnUpdated(r.records[memberId].(supervisor := None), now, today))
  }

  /** The hook's age is the derived age of the stored birth date: nothing but the supervisor is chosen by the call. */
  lemma SupervisorChangeAge(r: Roster, memberId: int, now: DateTime, today: LocalDate)
    requires ValidRoster(r) && memberId in r.records
    ensures RemoveSupervisorResult(r, memberId, now, today).value.age
            == Some(PeriodYears(r.records[memberId].birthDate.value, today))
    ensures ValidRoster(Replaced(r, memberId, RemoveSupervisorResult(r, memberId, now, today).value))
  {
  }

  /** On assignment too, the hook stores the age derived from the stored birth date. */
  lemma UpdateSupervisorAge(r: Roster, users: seq<User>, memberId: int, supervisorId: Option<int>,
                            now: DateTime, today: LocalDate)
    requires ValidRoster(r) && memberId in r.records
    requires UpdateSupervisorResult(r, users, memberId, supervisorId, now, today).Success?
    ensures UpdateSupervisorResult(r, users, memberId, supervisorId, now, today).value.value.age
            == Some(PeriodYears(r.records[memberId].birthDate.value, today))
  {
  }

  lemma UpdateSupervisorKeepsValid(r: Roster, users: seq<User>, memberId: int, supervisorId: Option<int>,
                                   now: DateTime, today: LocalDate)
    requires ValidRoster(r)
    requires UpdateSupervisorResult(r, users, memberId, supervisorId, now, today).Success?
    requires UpdateSupervisorResult(r, users, memberId, supervisorId, now, today).value.Some?
    ensures ValidRoster(Replaced(r, memberId, UpdateSupervisorResult(r, users, memberId, supervisorId, now, today).value.value))
  {
  }

  // ---------------------------------------------------------------- getTeamMembersByAgeRange

  predicate AgeInRange(m: MemberRecord, minAge: int, maxAge: int)
  {
    m.age.Some? && minAge <= m.age.value <= maxAge
  }

  /** getTeamMembersByAgeRange: the members whose age lies in [minAge, maxAge]. Ages are never null in the store. */
  function TeamMembersByAgeRange(ms: seq<MemberRecord>, minAge: int, maxAge: int): (r: seq<MemberRecord>)
    requires forall i :: 0 <= i < |ms| ==> ms[i].age.Some?
    ensures forall m :: m in r <==> m in ms && minAge <= m.age.value <= maxAge
  {
    Filter(ms, (m: MemberRecord) => AgeInRange(m, minAge, maxAge))
  }

  /** The selection keeps store order: it distributes over concatenation. */
  lemma AgeRangeKeepsOrder(ms: seq<MemberRecord>, ns: seq<MemberRecord>, minAge: int, maxAge: int)
    requires forall i :: 0 <= i < |ms| ==> ms[i].age.Some?
    requires forall i :: 0 <= i < |ns| ==> ns[i].age.Some?
    ensures forall i :: 0 <= i < |ms + ns| ==> (ms + ns)[i].age.Some?
    ensures TeamMembersByAgeRange(ms + ns, minAge, maxAge)
            == TeamMembersByAgeRange(ms, minAge, maxAge) + TeamMembersByAgeRange(ns, minAge, maxAge)
  {
    FilterConcat(ms, ns, (m: MemberRecord) => AgeInRange(m, minAge, maxAge));
  }

  /** Every stored member has an age, so the range query applies to findAll(). */
  lemma StoredAgesPresent(r: Roster)
    requires ValidRoster(r)
    ensures forall i :: 0 <= i < |FindAll(r)| ==> FindAll(r)[i].age.Some?
  {
    var all := FindAll(r);
    forall i | 0 <= i < |all| ensures all[i].age.Some? {
      var m := all[i];
      ListedIsStored(r, m);
      var k := m.id.value;
      assert r.records[k].age.Some?;
    }
  }

  // ---------------------------------------------------------------- the service

  /** convertToEntity: a new TeamMember built from the request, or the first parse failure. */
  method ConvertToEntity(dto: MemberRequest, supervisor: Option<User>, today: LocalDate)
    returns (res: Result<TeamMember, RosterError>)
    ensures res.Success? ==> fresh(res.value) && Converted(dto, supervisor, today) == Success(res.value.Snapshot())
    ensures res.Failure? ==> Converted(dto, supervisor, today) == Failure(res.error)
  {
    var city := ParseDistrict(dto.city);
    if city.None? {
      return Failure(UnknownDistrict(dto.city));
    }
    var specialization := ParseSpecialization(dto.specialization);
    if specialization.None? {
      return Failure(UnknownSpecialization(dto.specialization));
    }
    var hours := FromString(dto.workingHoursPerDay);
    if hours.None? {
      return Failure(InvalidWorkingHours(dto.workingHoursPerDay));
    }
    var entity := new TeamMember(Trim(dto.fullName), Trim(dto.nic), dto.contactNo, Some(dto.birthDate),
                                 Trim(dto.address), city.value, specialization.value, dto.joinedDate,
                                 hours.value, dto.teamId, supervisor, today);
    res := Success(entity);
  }

  class TeamMemberService {
    var records: map<int, MemberRecord>
    var order: seq<int>
    var nextId: int
    const users: seq<User>

    /** The repository's contents. */
    function State(): Roster
      reads this
    {
      Roster(records, order, nextId)
    }

    ghost predicate Valid()
      reads this
    {
      ValidRoster(State())
    }

    constructor (users: seq<User>)
      ensures Valid() && FindAll(State()) == [] && this.users == users
    {
      records := map[];
      order := [];
      nextId := 1;
      this.users := users;
    }

    /** createTeamMember. */
    method CreateTeamMember(dto: MemberRequest, now: DateTime, today: LocalDate)
      returns (res: Result<MemberRecord, RosterError>)
      requires Valid()
      modifies this
      ensures Valid()
      ensures match CreateResult(old(State()), users, dto, now, today)
              case Success(rec) => res == Success(rec) && State() == Inserted(old(State()), rec)
              case Failure(e) => res == Failure(e) && State() == old(State())
    {
      ghost var r0 := State();
      if !AgeAccepted(dto.birthDate, today) {
        return Failure(AgeOutOfRange);
      }
      if ExistsByNic(FindAll(State()), dto.nic) {
        return Failure(DuplicateNic(dto.nic));
      }
      var supervisor := ResolveSupervisor(users, dto.supervisorId);
      if supervisor.Failure? {
        return Failure(supervisor.error);
      }
      var converted := ConvertToEntity(dto, supervisor.value, today);
      if converted.Failure? {
        return Failure(converted.error);
      }
      var entity := converted.value;
      ghost var built := entity.Snapshot();
      entity.SetId(Some(nextId));
      entity.OnCreate(now, today);
      var rec := entity.Snapshot();
      CreateResultIs(r0, users, dto, now, today, supervisor.value, built);
      InsertedValid(r0, rec);
      records := records[nextId := rec];
      order := order + [nextId];
      nextId := nextId + 1;
      res := Success(rec);
    }

    /** updateTeamMember. */
    method UpdateTeamMember(id: int, dto: MemberRequest, now: DateTime, today: LocalDate)
      returns (res: Result<Option<MemberRecord>, RosterError>)
      requires Valid()
      modifies this
      ensures Valid()
      ensures match UpdateResult(old(State()), users, id, dto, now, today)
              case Success(Some(rec)) => res == Success(Some(rec)) && State() == Replaced(old(State()), id, rec)
              case Success(None) => res == Success(None) && State() == old(State())
              case Failure(e) => res == Failure(e) && State() == old(State())
    {
      ghost var r0 := State();
      if id !in records {
        return Success(None);
      }
      var existing := new TeamMember.Loaded(records[id]);
      if existing.nic != dto.nic && ExistsByNicAndIdNot(FindAll(State()), dto.nic, id) {
        return Failure(DuplicateNic(dto.nic));
      }
      if !AgeAccepted(dto.birthDate, today) {
        return Failure(AgeOutOfRange);
      }
      var supervisor := ResolveSupervisor(users, dto.supervisorId);
      if supervisor.Failure? {
        return Failure(supervisor.error);
      }
      var converted := ConvertToEntity(dto, supervisor.value, today);
      if converted.Failure? {
        return Failure(converted.error);
      }
      var updated := converted.value;
      ghost var built := updated.Snapshot();
      updated.SetId(Some(id));
      updated.SetCreatedAt(existing.createdAt);
      updated.OnUpdate(now, today);
      var rec := updated.Snapshot();
      UpdateResultIs(r0, users, id, dto, now, today, supervisor.value, built);
      records := records[id := rec];
      res := Success(Some(rec));
    }

    /** deleteTeamMember. */
    method DeleteTeamMember(id: int) returns (deleted: bool)
      requires Valid()
      modifies this
      ensures Valid()
      ensures (deleted, State()) == Deleted(old(State()), id)
    {
      if id in records {
        records := records - {id};
        order := Filter(order, (k: int) => k != id);
        return true;
      }
      return false;
    }

    /** updateSupervisor. */
    method UpdateSupervisor(memberId: int, supervisorId: Option<int>, now: DateTime, today: LocalDate)
      returns (res: Result<Option<MemberRecord>, RosterError>)
      requires Valid()
      modifies this
      ensures Valid()
      ensures match UpdateSupervisorResult(old(State()), users, memberId, supervisorId, now, today)
              case Success(Some(rec)) => res == Success(Some(rec)) && State() == Replaced(old(State()), memberId, rec)
              case Success(None) => res == Success(None) && State() == old(State())
              case Failure(e) => res == Failure(e) && State() == old(State())
    {
      if memberId !in records {
        return Success(None);
      }
      var member := new TeamMember.Loaded(records[memberId]);
      var supervisor := ResolveSupervisor(users, supervisorId);
      if supervisor.Failure? {
        return Failure(supervisor.error);
      }
      member.SetSupervisor(supervisor.value);
      member.OnUpdate(now, today);
      records := records[memberId := member.Snapshot()];
      res := Success(Some(member.Snapshot()));
    }

    /** removeSupervisor. */
    method RemoveSupervisor(memberId: int, now: DateTime, today: LocalDate) returns (res: Option<MemberRecord>)
      requires Valid()
      modifies this
      ensures Valid()
      ensures res == RemoveSupervisorResult(old(State()), memberId, now, today)
      ensures res.Some? ==> State() == Replaced(old(State()), memberId, res.value)
      ensures res.None? ==> State() == old(State())
    {
      if memberId !in records {
        return None;
      }
      var member := new TeamMember.Loaded(records[memberId]);
      member.SetSupervisor(None);
      member.OnUpdate(now, today);
      records := records[memberId := member.Snapshot()];
      res := Some(member.Snapshot());
    }

    /** getTeamMembersByAgeRange over findAll(). */
    method GetTeamMembersByAgeRange(minAge: int, maxAge: int) returns (res: seq<MemberRecord>)
      requires Valid()
      ensures forall i :: 0 <= i < |FindAll(State())| ==> FindAll(State())[i].age.Some?
      ensures res == TeamMembersByAgeRange(FindAll(State()), minAge, maxAge)
    {
      StoredAgesPresent(State());
      res := TeamMembersByAgeRange(FindAll(State()), minAge, maxAge);
    }
  }
}
