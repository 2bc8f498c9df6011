/**
 * The team-member entity (TeamMember): its enumerations, the field rules of its annotations,
 * the derived age, the persistence hooks and the supervisor accessors.
 */
module RosterModel {
  import opened Results
  import opened Text
  import opened Dates
  import opened Seqs
  import opened Users

  // ---------------------------------------------------------------- enumerations

  datatype District =
    | Ampara | Anuradhapura | Badulla | Batticaloa | Colombo | Galle | Gampaha
    | Hambantota | Jaffna | Kalutara | Kandy | Kegalle | Kilinochchi | Kurunegala
    | Mannar | Matale | Matara | Moneragala | Mullaitivu | NuwaraEliya | Polonnaruwa
    | Puttalam | Ratnapura | Trincomalee | Vavuniya

  /** Enum.name() of a district. */
  function DistrictName(d: District): string
  {
    match d
    case Ampara => "AMPARA"
    case Anuradhapura => "ANURADHAPURA"
    case Badulla => "BADULLA"
    case Batticaloa => "BATTICALOA"
    case Colombo => "COLOMBO"
    case Galle => "GALLE"
    case Gampaha => "GAMPAHA"
    case Hambantota => "HAMBANTOTA"
    case Jaffna => "JAFFNA"
    case Kalutara => "KALUTARA"
    case Kandy => "KANDY"
    case Kegalle => "KEGALLE"
    case Kilinochchi => "KILINOCHCHI"
    case Kurunegala => "KURUNEGALA"
    case Mannar => "MANNAR"
    case Matale => "MATALE"
    case Matara => "MATARA"
    case Moneragala => "MONERAGALA"
    case Mullaitivu => "MULLAITIVU"
    case NuwaraEliya => "NUWARA_ELIYA"
    case Polonnaruwa => "POLONNARUWA"
    case Puttalam => "PUTTALAM"
    case Ratnapura => "RATNAPURA"
    case Trincomalee => "TRINCOMALEE"
    case Vavuniya => "VAVUNIYA"
  }

  /**
   * District.valueOf(u): the district whose name is exactly u. The lookup is keyed on the first
   * character so that each comparison group stays small; what it computes is the exact-name match.
   */
  function DistrictValueOf(u: string): (r: Option<District>)
    ensures r.Some? ==> DistrictName(r.value) == u
  {
    if u == [] then None
    else match u[0]
    case 'A' =>
      if u == DistrictName(Ampara) then Some(Ampara)
      else if u == DistrictName(Anuradhapura) then Some(Anuradhapura)
      else None
    case 'B' =>
      if u == DistrictName(Badulla) then Some(Badulla)
      else if u == DistrictName(Batticaloa) then Some(Batticaloa)
      else None
    case 'C' =>
      if u == DistrictName(Colombo) then Some(Colombo)
      else None
    case 'G' =>
      if u == DistrictName(Galle) then Some(Galle)
      else if u == DistrictName(Gampaha) then Some(Gampaha)
      else None
    case 'H' =>
      if u == DistrictName(Hambantota) then Some(Hambantota)
      else None
    case 'J' =>
      if u == DistrictName(Jaffna) then Some(Jaffna)
      else None
    case 'K' =>
      if u == DistrictName(Kalutara) then Some(Kalutara)
      else if u == DistrictName(Kandy) then Some(Kandy)
      else if u == DistrictName(Kegalle) then Some(Kegalle)
      else if u == DistrictName(Kilinochchi) then Some(Kilinochchi)
      else if u == DistrictName(Kurunegala) then Some(Kurunegala)
      else None
    case 'M' =>
      if u == DistrictName(Mannar) then Some(Mannar)
      else if u == DistrictName(Matale) then Some(Matale)
      else if u == DistrictName(Matara) then Some(Matara)
      else if u == DistrictName(Moneragala) then Some(Moneragala)
      else if u == DistrictName(Mullaitivu) then Some(Mullaitivu)
      else None
    case 'N' =>
      if u == DistrictName(NuwaraEliya) then Some(NuwaraEliya)
      else None
    case 'P' =>
      if u == DistrictName(Polonnaruwa) then Some(Polonnaruwa)
      else if u == DistrictName(Puttalam) then Some(Puttalam)
      else None
    case 'R' =>
      if u == DistrictName(Ratnapura) then Some(Ratnapura)
      else None
    case 'T' =>
      if u == DistrictName(Trincomalee) then Some(Trincomalee)
      else None
    case 'V' =>
      if u == DistrictName(Vavuniya) then Some(Vavuniya)
      else None
    case _ => None
  }

  lemma DistrictValueOfName(d: District)
    ensures DistrictValueOf(DistrictName(d)) == Some(d)
  {
  }

  datatype Specialization =
    | Engine | Transmission | Suspension | Brakes | Electrical | Bodywork | Interior | Diagnostics

  /** Enum.name() of a specialization. */
  function SpecializationName(s: Specialization): string
  {
    match s
    case Engine => "ENGINE"
    case Transmission => "TRANSMISSION"
    case Suspension => "SUSPENSION"
    case Brakes => "BRAKES"
    case Electrical => "ELECTRICAL"
    case Bodywork => "BODYWORK"
    case Interior => "INTERIOR"
    case Diagnostics => "DIAGNOSTICS"
  }

  /** Specialization.valueOf(u): the specialization whose name is exactly u. */
  function SpecializationValueOf(u: string): (r: Option<Specialization>)
    ensures r.Some? ==> SpecializationName(r.value) == u
  {
    if u == SpecializationName(Engine) then Some(Engine)
    else if u == SpecializationName(Transmission) then Some(Transmission)
    else if u == SpecializationName(Suspension) then Some(Suspension)
    else if u == SpecializationName(Brakes) then Some(Brakes)
    else if u == SpecializationName(Electrical) then Some(Electrical)
    else if u == SpecializationName(Bodywork) then Some(Bodywork)
    else if u == SpecializationName(Interior) then Some(Interior)
    else if u == SpecializationName(Diagnostics) then Some(Diagnostics)
    else None
  }

  lemma SpecializationValueOfName(s: Specialization)
    ensures SpecializationValueOf(SpecializationName(s)) == Some(s)
  {
  }

  /** The city parse of the service: District.valueOf(s.toUpperCase()). */
  function ParseDistrict(s: string): Option<District>
  {
    DistrictValueOf(Upper(s))
  }

  /** The specialization parse of the service: Specialization.valueOf(s.toUpperCase()). */
  function ParseSpecialization(s: string): Option<Specialization>
  {
    SpecializationValueOf(Upper(s))
  }

  /** The parse accepts a string exactly when its upper-case form is the name of a constant. */
  lemma ParseDistrictExact(s: string, d: District)
    ensures ParseDistrict(s) == Some(d) <==> Upper(s) == DistrictName(d)
  {
    DistrictValueOfName(d);
  }

  lemma ParseSpecializationExact(s: string, v: Specialization)
    ensures ParseSpecialization(s) == Some(v) <==> Upper(s) == SpecializationName(v)
  {
    SpecializationValueOfName(v);
  }

  /** Enum names are distinct, so a parsed constant is determined by its name. */
  lemma DistrictNameInjective(a: District, b: District)
    ensures DistrictName(a) == DistrictName(b) ==> a == b
  {
    DistrictValueOfName(a);
    DistrictValueOfName(b);
  }

  lemma {:induction false} UpperOfLower(s: string)
    ensures Upper(Lower(s)) == Upper(s)
  {
    if s != [] { UpperOfLower(s[1..]); }
  }

  lemma {:induction false} UpperOfUpper(s: string)
    ensures Upper(Upper(s)) == Upper(s)
  {
    if s != [] { UpperOfUpper(s[1..]); }
  }

  /** The parse is case-insensitive: lower-casing or upper-casing the input does not change the result. */
  lemma ParseIgnoresCase(s: string)
    ensures ParseDistrict(Lower(s)) == ParseDistrict(s) && ParseDistrict(Upper(s)) == ParseDistrict(s)
    ensures ParseSpecialization(Lower(s)) == ParseSpecialization(s)
    ensures ParseSpecialization(Upper(s)) == ParseSpecialization(s)
  {
    UpperOfLower(s);
    UpperOfUpper(s);
  }

  lemma ParseExampleColombo()
    ensures ParseDistrict("colombo") == Some(Colombo)
  {
    assert Upper("colombo") == "COLOMBO";
    DistrictValueOfName(Colombo);
  }

  lemma ParseExampleNuwaraEliya()
    ensures ParseDistrict("Nuwara_Eliya") == Some(NuwaraEliya)
  {
    assert Upper("Nuwara_Eliya") == "NUWARA_ELIYA";
    DistrictValueOfName(NuwaraEliya);
  }

  lemma ParseExampleBrakes()
    ensures ParseSpecialization("Brakes") == Some(Brakes)
  {
    assert Upper("Brakes") == "BRAKES";
    SpecializationValueOfName(Brakes);
  }

  // ---------------------------------------------------------------- working hours

  datatype WorkingHours = Four | Six | Eight | Ten | Twelve

  /** WorkingHours.getHours(): the label each constant carries. */
  function Hours(w: WorkingHours): string
  {
    match w
    case Four => "4"
    case Six => "6"
    case Eight => "8"
    case Ten => "10"
    case Twelve => "12"
  }

  /** WorkingHours.values(), in declaration order. */
  const WorkingHoursValues: seq<WorkingHours> := [Four, Six, Eight, Ten, Twelve]

  /** The labels fromString accepts. */
  const HoursLabels: set<string> := {"4", "6", "8", "10", "12"}

  /** WorkingHours.fromString: the first constant in declaration order whose label equals s. */
  function ParseWorkingHours(s: string): (r: Option<WorkingHours>)
    ensures r.Some? ==> Hours(r.value) == s
    ensures r.None? <==> s !in HoursLabels
  {
    FirstWhere(WorkingHoursValues, (w: WorkingHours) => Hours(w) == s)
  }

  /** The loop of WorkingHours.fromString over values(); None stands for the IllegalArgumentException. */
  method FromString(s: string) returns (r: Option<WorkingHours>)
    ensures r == ParseWorkingHours(s)
  {
    var i := 0;
    while i < |WorkingHoursValues|
      invariant 0 <= i <= |WorkingHoursValues|
      invariant forall j :: 0 <= j < i ==> Hours(WorkingHoursValues[j]) != s
    {
      if Hours(WorkingHoursValues[i]) == s {
        FirstMatchAt(s, i);
        return Some(WorkingHoursValues[i]);
      }
      i := i + 1;
    }
    return None;
  }

  /** A match at index i after misses at every earlier index is the parse result. */
  lemma FirstMatchAt(s: string, i: nat)
    requires i < |WorkingHoursValues| && Hours(WorkingHoursValues[i]) == s
    requires forall j :: 0 <= j < i ==> Hours(WorkingHoursValues[j]) != s
    ensures ParseWorkingHours(s) == Some(WorkingHoursValues[i])
  {
  }

  /** fromString(w.getHours()) == w for every constant. */
  lemma WorkingHoursRoundTrip(w: WorkingHours)
    ensures ParseWorkingHours(Hours(w)) == Some(w)
  {
  }

  // ---------------------------------------------------------------- the member record

  /**
   * The state of one TeamMember entity. Nullable references are options; city, specialization and
   * working hours are always set by the service before a record is stored.
   */
  datatype MemberRecord = MemberRecord(
    id: Option<int>,
    fullName: string,
    nic: string,
    contactNo: string,
    birthDate: Option<LocalDate>,
    age: Option<int>,
    address: string,
    city: District,
    specialization: Specialization,
    joinedDate: LocalDate,
    workingHoursPerDay: WorkingHours,
    teamId: string,
    supervisor: Option<User>,
    createdAt: Option<DateTime>,
    updatedAt: Option<DateTime>)

  /** calculateAge(): the age the entity holds afterwards; it is left alone when there is no birth date. */
  function CalculatedAge(birthDate: Option<LocalDate>, age: Option<int>, today: LocalDate): Option<int>
  {
    if birthDate.Some? then Some(PeriodYears(birthDate.value, today)) else age
  }

  /** The @PrePersist hook: both timestamps set to now, then the age recomputed. */
  function OnCreated(m: MemberRecord, now: DateTime, today: LocalDate): MemberRecord
  {
    m.(createdAt := Some(now), updatedAt := Some(now), age := CalculatedAge(m.birthDate, m.age, today))
  }

  /** The @PreUpdate hook: updatedAt set to now, then the age recomputed. */
  function OnUpdated(m: MemberRecord, now: DateTime, today: LocalDate): MemberRecord
  {
    m.(updatedAt := Some(now), age := CalculatedAge(m.birthDate, m.age, today))
  }

  lemma CalculatedAgeExample()
    ensures CalculatedAge(Some(Date(2000, 1, 1)), None, Date(2024, 6, 1)) == Some(24)
    ensures CalculatedAge(None, Some(30), Date(2024, 6, 1)) == Some(30)
  {
    PeriodYearsExample();
  }

  /**
   * Whatever age a record held before (a setAge call, a stale value), the hooks leave the whole-years
   * age of its birth date on today.
   */
  lemma HooksDeriveAge(m: MemberRecord, now: DateTime, today: LocalDate)
    requires m.birthDate.Some? && OnOrBefore(m.birthDate.value, today)
    ensures var years := today.year - m.birthDate.value.year
                         - (if EarlierInYear(today, m.birthDate.value) then 1 else 0);
            OnCreated(m, now, today).age == Some(years) && OnUpdated(m, now, today).age == Some(years)
  {
    WholeYearsElapsed(m.birthDate.value, today);
  }

  /** An age set earlier does not survive either hook while a birth date is present. */
  lemma HooksOverrideSetAge(m: MemberRecord, a: Option<int>, now: DateTime, today: LocalDate)
    requires m.birthDate.Some?
    ensures OnCreated(m.(age := a), now, today) == OnCreated(m, now, today)
    ensures OnUpdated(m.(age := a), now, today) == OnUpdated(m, now, today)
  {
  }

  /**
   * onCreate stamps both timestamps with the same instant; onUpdate changes only updatedAt and the age,
   * never createdAt.
   */
  lemma HookTimestamps(m: MemberRecord, now: DateTime, today: LocalDate)
    ensures OnCreated(m, now, today).createdAt == Some(now) && OnCreated(m, now, today).updatedAt == Some(now)
    ensures OnUpdated(m, now, today).createdAt == m.createdAt
    ensures OnUpdated(m, now, today).updatedAt == Some(now)
    ensures OnUpdated(m, now, today).(updatedAt := m.updatedAt, age := m.age) == m
    ensures OnCreated(m, now, today).(createdAt := m.createdAt, updatedAt := m.updatedAt, age := m.age) == m
  {
  }

  // ---------------------------------------------------------------- field rules (Bean Validation)

  /** @NotBlank @Size(min = 2, max = 100) on fullName. */
  predicate ValidFullName(s: string) { NotBlank(s) && 2 <= |s| <= 100 }

  /** @NotBlank @Pattern("^[0-9]{12}$") on nic. */
  predicate ValidNic(s: string) { NotBlank(s) && DigitsOfLength(s, 12, 12) }

  /** @NotBlank @Pattern("^[0-9]{10,15}$") on contactNo. */
  predicate ValidContactNo(s: string) { NotBlank(s) && DigitsOfLength(s, 10, 15) }

  /** @NotBlank @Size(min = 5, max = 200) on address. */
  predicate ValidAddress(s: string) { NotBlank(s) && 5 <= |s| <= 200 }

  /** @NotNull @Past on birthDate. */
  predicate ValidBirthDate(b: Option<LocalDate>, today: LocalDate) { b.Some? && Before(b.value, today) }

  /** @NotNull @PastOrPresent on joinedDate (never null in the record). */
  predicate ValidJoinedDate(j: LocalDate, today: LocalDate) { OnOrBefore(j, today) }

  /** Every annotated constraint of the entity. */
  predicate SatisfiesConstraints(m: MemberRecord, today: LocalDate)
  {
    && ValidFullName(m.fullName) && ValidNic(m.nic) && ValidContactNo(m.contactNo)
    && ValidBirthDate(m.birthDate, today) && ValidAddress(m.address) && ValidJoinedDate(m.joinedDate, today)
  }

  /** A string of decimal digits, none of them blank, is non-blank exactly when it is non-empty. */
  lemma DigitsNotBlank(s: string)
    requires forall i :: 0 <= i < |s| ==> IsDigit(s[i])
    ensures NotBlank(s) <==> |s| > 0
  {
    NotBlankIff(s);
    if |s| > 0 { assert !IsTrimmable(s[0]); }
  }

  /** NIC is valid iff it is exactly 12 decimal digits; a contact number iff it has 10 to 15 of them. */
  lemma DigitRules(s: string)
    ensures ValidNic(s) <==> |s| == 12 && forall i :: 0 <= i < |s| ==> IsDigit(s[i])
    ensures ValidContactNo(s) <==> 10 <= |s| <= 15 && forall i :: 0 <= i < |s| ==> IsDigit(s[i])
  {
    if forall i :: 0 <= i < |s| ==> IsDigit(s[i]) { DigitsNotBlank(s); }
  }

  /** A valid NIC or contact number has nothing for String.trim() to remove. */
  lemma DigitFieldsAreTrimmed(s: string)
    requires ValidNic(s) || ValidContactNo(s)
    ensures Trim(s) == s
  {
    TrimNoOp(s);
  }

  /** A 12-digit NIC is accepted; 11 or 13 digits, a letter or a leading blank are not. */
  lemma NicExamples()
    ensures ValidNic("200012345678") && !ValidNic("20001234567") && !ValidNic("2000123456789")
    ensures !ValidNic("20001234567X") && !ValidNic(" 20001234567")
  {
    NotBlankIff("200012345678");
    assert !IsTrimmable("200012345678"[0]);
    assert !IsDigit("20001234567X"[11]);
    assert !IsDigit(" 20001234567"[0]);
  }

  /** A 10-digit contact number is accepted and a 9-digit one rejected. */
  lemma ContactNoExamples()
    ensures ValidContactNo("0771234567") && !ValidContactNo("077123456")
  {
    NotBlankIff("0771234567");
    assert !IsTrimmable("0771234567"[0]);
  }

  /** "Al" is a valid full name; "A", spaces only and control characters only are not. */
  lemma FullNameExamples()
    ensures ValidFullName("Al") && !ValidFullName("A") && !ValidFullName("   ")
    ensures !ValidFullName("\U{1}\U{1}")
  {
    NotBlankIff("Al");
    assert !IsTrimmable("Al"[0]);
    NotBlankIff("   ");
    NotBlankIff("\U{1}\U{1}");
  }

  // ---------------------------------------------------------------- supervisor accessors

  /** getSupervisorId(): None exactly when there is no supervisor, otherwise that user's id. */
  function SupervisorIdOf(supervisor: Option<User>): (r: Option<int>)
    ensures r.None? <==> supervisor.None?
    ensures r.Some? ==> supervisor.Some? && r.value == supervisor.value.id
  {
    match supervisor
    case None => None
    case Some(u) => Some(u.id)
  }

  /** getSupervisorName(): first and last name joined by a space, then trimmed. */
  function SupervisorNameOf(supervisor: Option<User>): (r: Option<string>)
    ensures r.None? <==> supervisor.None?
    ensures r.Some? ==> r.value == [] || (!IsTrimmable(r.value[0]) && !IsTrimmable(r.value[|r.value| - 1]))
    ensures r.Some? ==> exists lo :: StrippedAt(supervisor.value.firstName + " " + supervisor.value.lastName, r.value, lo)
  {
    match supervisor
    case None => None
    case Some(u) => Some(Trim(u.firstName + " " + u.lastName))
  }

  // ---------------------------------------------------------------- the entity

  /** The mutable TeamMember entity. */
  class TeamMember {
    var id: Option<int>
    var fullName: string
    var nic: string
    var contactNo: string
    var birthDate: Option<LocalDate>
    var age: Option<int>
    var address: string
    var city: District
    var specialization: Specialization
    var joinedDate: LocalDate
    var workingHoursPerDay: WorkingHours
    var teamId: string
    var supervisor: Option<User>
    var createdAt: Option<DateTime>
    var updatedAt: Option<DateTime>

    /** The entity's current field values. */
    function Snapshot(): MemberRecord
      reads this
    {
      MemberRecord(id, fullName, nic, contactNo, birthDate, age, address, city, specialization,
                   joinedDate, workingHoursPerDay, teamId, supervisor, createdAt, updatedAt)
    }

    /** The all-arguments constructor: fields assigned, then calculateAge() on today. */
    constructor (fullName: string, nic: string, contactNo: string, birthDate: Option<LocalDate>,
                 address: string, city: District, specialization: Specialization, joinedDate: LocalDate,
                 workingHoursPerDay: WorkingHours, teamId: string, supervisor: Option<User>, today: LocalDate)
      ensures Snapshot() == MemberRecord(None, fullName, nic, contactNo, birthDate,
                                         CalculatedAge(birthDate, None, today), address, city, specialization,
                                         joinedDate, workingHoursPerDay, teamId, supervisor, None, None)
    {
      this.id := None;
      this.fullName := fullName;
      this.nic := nic;
      this.contactNo := contactNo;
      this.birthDate := birthDate;
      this.address := address;
      this.city := city;
      this.specialization := specialization;
      this.joinedDate := joinedDate;
      this.workingHoursPerDay := workingHoursPerDay;
      this.teamId := teamId;
      this.supervisor := supervisor;
      this.createdAt := None;
      this.updatedAt := None;
      this.age := CalculatedAge(birthDate, None, today);
    }

    /** An entity loaded from the store with the given state. */
    constructor Loaded(m: MemberRecord)
      ensures Snapshot() == m
    {
      id := m.id;
      fullName := m.fullName;
      nic := m.nic;
      contactNo := m.contactNo;
      birthDate := m.birthDate;
      age := m.age;
      address := m.address;
      city := m.city;
      specialization := m.specialization;
      joinedDate := m.joinedDate;
      workingHoursPerDay := m.workingHoursPerDay;
      teamId := m.teamId;
      supervisor := m.supervisor;
      createdAt := m.createdAt;
      updatedAt := m.updatedAt;
    }

    /** setBirthDate also recomputes the age. */
    method SetBirthDate(b: Option<LocalDate>, today: LocalDate)
      modifies this
      ensures Snapshot() == old(Snapshot()).(birthDate := b, age := CalculatedAge(b, old(age), today))
    {
      birthDate := b;
      age := CalculatedAge(birthDate, age, today);
    }

    method SetAge(a: Option<int>)
      modifies this
      ensures Snapshot() == old(Snapshot()).(age := a)
    {
      age := a;
    }

    method SetId(i: Option<int>)
      modifies this
      ensures Snapshot() == old(Snapshot()).(id := i)
    {
      id := i;
    }

    method SetSupervisor(s: Option<User>)
      modifies this
      ensures Snapshot() == old(Snapshot()).(supervisor := s)
    {
      supervisor := s;
    }

    method SetCreatedAt(c: Option<DateTime>)
      modifies this
      ensures Snapshot() == old(Snapshot()).(createdAt := c)
    {
      createdAt := c;
    }

    /** @PrePersist onCreate(). */
    method OnCreate(now: DateTime, today: LocalDate)
      modifies this
      ensures Snapshot() == OnCreated(old(Snapshot()), now, today)
    {
      createdAt := Some(now);
      updatedAt := Some(now);
      age := CalculatedAge(birthDate, age, today);
    }

    /** @PreUpdate onUpdate(). */
    method OnUpdate(now: DateTime, today: LocalDate)
      modifies this
      ensures Snapshot() == OnUpdated(old(Snapshot()), now, today)
    {
      updatedAt := Some(now);
      age := CalculatedAge(birthDate, age, today);
    }
  }
}
