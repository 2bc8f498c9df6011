# ASMS domain rules in Dafny

This project models the decision logic of the ASMS vehicle-service back end. That logic comes in three parts.

- **Appointment lifecycle** (`AppointmentService`):
  - creating an appointment for a customer resolved by username, always in status `PENDING`;
  - reading an appointment's status as its enum name;
  - cancelling an appointment. The code checks, in this order, that the appointment exists, that the caller owns it, and that it is neither `CANCELLED` nor `COMPLETED`.
- **Team roster** (`TeamMemberService` and the `TeamMember` entity):
  - age is derived from the birth date the way `Period.between(birth, today).getYears()` computes it, and must lie in [18, 80];
  - the NIC (national identity card number) must be unique, and an update may keep the member's own NIC;
  - a supplied supervisor id must resolve to a user;
  - the stored record is rebuilt with trimmed strings, and the enums are parsed case-insensitively;
  - update carries the id and `createdAt` over; create gets the next id, and `@PrePersist` sets `createdAt` to now;
  - delete reports whether the member existed;
  - the supervisor assign and clear operations change only the supervisor reference, apart from what the save hook recomputes;
  - the `@PrePersist`/`@PreUpdate` hooks stamp timestamps and recompute the age.
- **Roster queries** (`TeamMemberRepository`). Each JPQL or derived query is a filter, count, group or sort over the members in store order:
  - case-insensitive substring search;
  - supervisor-scoped search;
  - the combined filter, where a null parameter imposes no constraint;
  - supervisor listing by name, per-supervisor counts and the capacity-based "available supervisors" query;
  - the inclusive joined-date range.

Modules:

| module | file | contents |
|---|---|---|
| `Results` | results.dfy | `Option`, `Result` and `Outcome`. |
| `Seqs` | seqs.dfy | Filter, count and first-match over sequences, with their algebra. |
| `Text` | text.dfy | `String.trim()`, ASCII case mapping, substring containment, digit strings, blankness and code-point order. |
| `Dates` | dates.dfy | Calendar dates as a subset type, chronological order and `Period.between(..).getYears()`. |
| `Users` | users.dfy | The user store the core reads, with `findByUsername` and `findById`. |
| `Appointments` | appointments.dfy | The status enum, the pure cancel transition, and the `AppointmentService` class over a map store. |
| `RosterModel` | roster_model.dfy | The `TeamMember` entity class, its enums, the working-hours parse loop, the annotated field rules, the hooks and the supervisor accessors. |
| `RosterRepository` | roster_repository.dfy | The repository queries as functions. |
| `RosterService` | roster_service.dfy | The store value (`Roster`), each write as a function of the store before it, the lemmas about those functions, and the `TeamMemberService` class. Each method of that class is proved to produce exactly what the matching function says. |

Stores are maps from id to record. The roster store also keeps the order in which `findAll()` returns its records and the next identity value. "Today" and "now" are parameters of every operation that reads the clock. The users table is a read-only sequence of users.

Facts about the code that the model keeps:
- the code never checks a supervisor's role, only that the id resolves;
- the code checks the age before the NIC on create, but the NIC before the age on update;
- `setAge` is public, though the hooks overwrite it whenever a birth date is present;
- an assign or clear of the supervisor on a member that does not exist returns an empty result, not an error;
- every failure of the roster service is an `IllegalArgumentException`. The model keeps one constructor of `RosterError` per cause.

## Model

Paths are under `src/main/java/com/example/demo/`. Below, AS is `service/AppointmentService.java`, TS is `service/TeamMemberService.java`, TM is `model/TeamMember.java` and TR is `repository/TeamMemberRepository.java`. The cells use the full paths.

| member | source | states |
|---|---|---|
| Appointments.StatusName | src/main/java/com/example/demo/model/AppointmentStatus.java:4-10 | Defines `name()` of each status as the constant's identifier. `StatusNameInjective` states that the names are distinct. |
| Appointments.IsCancellable | src/main/java/com/example/demo/service/AppointmentService.java:79-84 | Defines the statuses the owner may cancel from: every status but `Cancelled` and `Completed`. `Cancel` and `TerminalStatesStay` state what that means for the cancel call. |
| Appointments.StatusNameInjective | src/main/java/com/example/demo/model/AppointmentStatus.java:4-10 | Distinct statuses have distinct names, so the string `getAppointmentStatus` returns identifies the state. |
| Appointments.NewAppointment | src/main/java/com/example/demo/service/AppointmentService.java:33-46 | The assembled appointment has the resolved owner and status `Pending`. Every descriptive field equals the request's field, verbatim. |
| Appointments.Cancel | src/main/java/com/example/demo/service/AppointmentService.java:69-88 | Errors come in check order: a missing id is not-found; a caller other than the owner is not-authorized; `Cancelled` is already-cancelled; `Completed` is not cancellable. Success happens exactly when the owner cancels from a cancellable status. Then only that appointment changes, to `Cancelled`, and the key set and every other appointment stay as they were. |
| Appointments.CancelNotIdempotent | src/main/java/com/example/demo/service/AppointmentService.java:79-88 | Right after a successful cancel, the same cancel fails with already-cancelled. |
| Appointments.NonOwnerCancelFails | src/main/java/com/example/demo/service/AppointmentService.java:74-76 | Whatever the current status, a non-owner gets the authorization error, which is an IllegalArgumentException. |
| Appointments.TerminalStatesStay | src/main/java/com/example/demo/service/AppointmentService.java:79-84 | Cancelling from `Cancelled` or `Completed` always fails. For the owner the failure is an IllegalStateException. |
| Appointments.CancelKeepsEverythingButStatus | src/main/java/com/example/demo/service/AppointmentService.java:86-88 | A cancel changes no id, no owner and no descriptive field of any appointment. |
| Appointments.AppointmentService.CreateAppointment | src/main/java/com/example/demo/service/AppointmentService.java:28-49 | An unresolved username fails with user-not-found and leaves the store unchanged. Otherwise the new appointment is stored under a fresh id, and nothing else changes. |
| Appointments.AppointmentService.GetAppointmentStatus | src/main/java/com/example/demo/service/AppointmentService.java:61-66 | Read-only. Returns the name of the stored status, or not-found for an absent id. |
| Appointments.AppointmentService.GetAppointmentsByCustomer | src/main/java/com/example/demo/service/AppointmentService.java:52-58 | For a username that resolves: exactly the stored appointments that user owns. |
| Appointments.AppointmentService.CancelAppointment | src/main/java/com/example/demo/service/AppointmentService.java:69-89 | Returns the outcome `Cancel` gives on the old store. The new store is `Cancel`'s store on success and the old store on failure. |
| Users.FindByUsername | src/main/java/com/example/demo/service/AppointmentService.java:30-31 | A found user is in the store and has that username. None exactly when no user has it. |
| Users.FindById | src/main/java/com/example/demo/service/TeamMemberService.java:58-61 | A found user is in the store and has that id. None exactly when no user has it. |
| Dates.OnOrBefore | src/main/java/com/example/demo/model/TeamMember.java:53 | Defines chronological order on dates, used for `@PastOrPresent` and for `BETWEEN` (TeamMemberRepository.java:93). `JoinedDateRangeInclusive` and `AgeAcceptedIff` rely on it. |
| Dates.Before | src/main/java/com/example/demo/model/TeamMember.java:32 | Defines strict chronological order, used for `@Past`. `PeriodYearsBeforeStart` states what it means for the year count. |
| Dates.PeriodYears | src/main/java/com/example/demo/model/TeamMember.java:88-92 | Defines `Period.between(start, end).getYears()` as `LocalDate.until` computes it: the month difference, corrected when the day of month goes back, divided by 12 toward zero. `WholeYearsElapsed` relates it to the anniversary count, and `PeriodYearsBeforeStart` covers future dates. |
| Dates.WholeYearsElapsed | src/main/java/com/example/demo/model/TeamMember.java:88-92 | For a birth date on or before today, the `Period.between` year count is the year difference, less one while the anniversary is still to come. |
| Dates.PeriodYearsMonotone | src/main/java/com/example/demo/model/TeamMember.java:88-92 | The derived age never decreases as today advances. |
| Dates.PeriodYearsExample | src/main/java/com/example/demo/model/TeamMember.java:88-92 | Born 2000-01-01: 24 on 2024-06-01. Born 2006-06-02: 17 on that day. Born 2006-06-01: 18. |
| Dates.PeriodYearsFutureExample | src/main/java/com/example/demo/service/TeamMemberService.java:195-196 | A future birth date gives a negative count that rounds toward zero: 2030-06-15 seen from 2024-06-01 gives -6. |
| Dates.PeriodYearsBeforeStart | src/main/java/com/example/demo/service/TeamMemberService.java:195-199 | Before the start date the year count is never positive, so `validateAge` rejects future birth dates. |
| Text.Lower | src/main/java/com/example/demo/repository/TeamMemberRepository.java:103 | Defines SQL `LOWER` as ASCII lower-casing, character by character. `MatchesEmptyTerm` and the search lemmas use it. |
| Text.Upper | src/main/java/com/example/demo/service/TeamMemberService.java:209-210 | Defines `String.toUpperCase()` as ASCII upper-casing, character by character. `UpperOfLower` and `UpperOfUpper` state its algebra. |
| Text.Contains | src/main/java/com/example/demo/repository/TeamMemberRepository.java:103 | Defines `LIKE '%t%'` containment. `ContainsIff` states it as an occurrence at some index, and `ContainsEmpty` covers the empty term. |
| Text.StringLe | src/main/java/com/example/demo/repository/TeamMemberRepository.java:26 | Defines the name order of `ORDER BY tm.fullName` as code-point lexicographic order. `StringLeTotal`, `StringLeReflexive` and `StringLeTransitive` state that it is a total preorder. |
| Text.NotBlank | src/main/java/com/example/demo/model/TeamMember.java:16 | Defines `@NotBlank` on a non-null string as something being left after `trim()`. `NotBlankIff` states what that means per character. |
| Text.NotBlankIff | src/main/java/com/example/demo/model/TeamMember.java:16-41 | A string is non-blank exactly when some character of it is above U+0020. |
| Text.Trim | src/main/java/com/example/demo/service/TeamMemberService.java:204-208 | The result is an infix of the input with only characters <= U+0020 removed, all of them at the two ends. Its own first and last characters are not such characters. |
| Text.TrimNoOp | src/main/java/com/example/demo/service/TeamMemberService.java:204-208 | A string with nothing to trim at either end is its own trim. |
| Text.TrimIdempotent | src/main/java/com/example/demo/service/TeamMemberService.java:204-208 | Trimming twice equals trimming once. |
| Text.ContainsIff | src/main/java/com/example/demo/repository/TeamMemberRepository.java:102-108 | `LIKE '%t%'` containment holds exactly when the term occurs at some index. |
| Text.ContainsEmpty | src/main/java/com/example/demo/repository/TeamMemberRepository.java:102-108 | The empty term occurs in every string. |
| Text.StringLeTotal | src/main/java/com/example/demo/repository/TeamMemberRepository.java:26 | Any two names are comparable under the `ORDER BY` string order. |
| Text.StringLeReflexive | src/main/java/com/example/demo/repository/TeamMemberRepository.java:26 | Every name is ordered before or equal to itself. |
| Text.StringLeTransitive | src/main/java/com/example/demo/repository/TeamMemberRepository.java:26 | The name order is transitive. |
| Seqs.Filter | src/main/java/com/example/demo/service/TeamMemberService.java:188-192 | A stream filter: the result keeps exactly the elements that pass, each as many times as it occurs in the input, and never grows. |
| Seqs.FirstWhere | src/main/java/com/example/demo/model/TeamMember.java:120-127 | A first match is an element that passes. None exactly when no element passes. |
| RosterModel.DistrictName | src/main/java/com/example/demo/model/TeamMember.java:95-100 | Defines `name()` of each of the 25 districts. `DistrictNameInjective` and `DistrictValueOfName` state that the names are distinct and parse back. |
| RosterModel.SpecializationName | src/main/java/com/example/demo/model/TeamMember.java:102-105 | Defines `name()` of each of the 8 specializations. `SpecializationValueOfName` states that each name parses back. |
| RosterModel.DistrictValueOf | src/main/java/com/example/demo/model/TeamMember.java:95-100 | `District.valueOf` returns only the constant whose name is exactly the string. |
| RosterModel.DistrictValueOfName | src/main/java/com/example/demo/model/TeamMember.java:95-100 | `valueOf(d.name())` is `d` for each of the 25 districts. |
| RosterModel.SpecializationValueOf | src/main/java/com/example/demo/model/TeamMember.java:102-105 | `Specialization.valueOf` returns only the constant whose name is exactly the string. |
| RosterModel.SpecializationValueOfName | src/main/java/com/example/demo/model/TeamMember.java:102-105 | `valueOf(s.name())` is `s` for each of the 8 specializations. |
| RosterModel.ParseDistrict | src/main/java/com/example/demo/service/TeamMemberService.java:209 | Defines the city parse as `District.valueOf(city.toUpperCase())`. `ParseDistrictExact` and `ParseIgnoresCase` state its meaning. |
| RosterModel.ParseSpecialization | src/main/java/com/example/demo/service/TeamMemberService.java:210 | Defines the specialization parse as `Specialization.valueOf(spec.toUpperCase())`. `ParseSpecializationExact` and `ParseIgnoresCase` state its meaning. |
| RosterModel.ParseDistrictExact | src/main/java/com/example/demo/service/TeamMemberService.java:209 | The city string parses to `d` exactly when its upper-case form is `d`'s name. |
| RosterModel.ParseSpecializationExact | src/main/java/com/example/demo/service/TeamMemberService.java:210 | The specialization string parses to `v` exactly when its upper-case form is `v`'s name. |
| RosterModel.DistrictNameInjective | src/main/java/com/example/demo/model/TeamMember.java:95-100 | Distinct districts have distinct names. |
| RosterModel.UpperOfLower | src/main/java/com/example/demo/service/TeamMemberService.java:209-210 | Upper-casing a lower-cased string equals upper-casing the original. |
| RosterModel.UpperOfUpper | src/main/java/com/example/demo/service/TeamMemberService.java:209-210 | Upper-casing is idempotent. |
| RosterModel.ParseIgnoresCase | src/main/java/com/example/demo/service/TeamMemberService.java:209-210 | Lower- or upper-casing the input never changes either parse. |
| RosterModel.ParseExampleColombo | src/main/java/com/example/demo/service/TeamMemberService.java:209 | "colombo" parses to `Colombo`. |
| RosterModel.ParseExampleNuwaraEliya | src/main/java/com/example/demo/service/TeamMemberService.java:209 | "Nuwara_Eliya" parses to `NuwaraEliya`. |
| RosterModel.ParseExampleBrakes | src/main/java/com/example/demo/service/TeamMemberService.java:210 | "Brakes" parses to `Brakes`. |
| RosterModel.Hours | src/main/java/com/example/demo/model/TeamMember.java:107-118 | Defines `getHours()`: the label "4", "6", "8", "10" or "12" each constant carries. `WorkingHoursRoundTrip` states that `fromString` inverts it. |
| RosterModel.ParseWorkingHours | src/main/java/com/example/demo/model/TeamMember.java:120-127 | A result carries exactly the given label. The parse fails exactly on strings other than "4", "6", "8", "10" and "12". |
| RosterModel.FromString | src/main/java/com/example/demo/model/TeamMember.java:120-127 | The first-match loop over `values()` returns what `ParseWorkingHours` specifies. |
| RosterModel.FirstMatchAt | src/main/java/com/example/demo/model/TeamMember.java:121-124 | A match at index i, with misses at every earlier index, is the parse result. |
| RosterModel.WorkingHoursRoundTrip | src/main/java/com/example/demo/model/TeamMember.java:107-127 | `fromString(w.getHours())` is `w` for every constant. |
| RosterModel.CalculatedAge | src/main/java/com/example/demo/model/TeamMember.java:88-92 | Defines `calculateAge()`: the `Period.between` year count from the birth date to today, and the old age when there is no birth date. `HooksDeriveAge` and `CalculatedAgeExample` state its effect. |
| RosterModel.OnCreated | src/main/java/com/example/demo/model/TeamMember.java:75-80 | Defines the `@PrePersist` hook on a record. `HookTimestamps`, `HooksDeriveAge` and `HooksOverrideSetAge` state what it changes. |
| RosterModel.OnUpdated | src/main/java/com/example/demo/model/TeamMember.java:82-86 | Defines the `@PreUpdate` hook on a record. The same three lemmas state what it changes. |
| RosterModel.CalculatedAgeExample | src/main/java/com/example/demo/model/TeamMember.java:88-92 | Born 2000-01-01, the age on 2024-06-01 is 24. With no birth date the age is left untouched. |
| RosterModel.HooksDeriveAge | src/main/java/com/example/demo/model/TeamMember.java:75-92 | After either hook, the age is the anniversary-counted years between the birth date and today. |
| RosterModel.HooksOverrideSetAge | src/main/java/com/example/demo/model/TeamMember.java:75-86 | While a birth date is present, an age set earlier does not survive either hook. |
| RosterModel.HookTimestamps | src/main/java/com/example/demo/model/TeamMember.java:75-86 | `onCreate` sets both timestamps to the same instant and changes only those and the age. `onUpdate` sets `updatedAt`, keeps `createdAt`, and changes nothing but `updatedAt` and the age. |
| RosterModel.ValidFullName | src/main/java/com/example/demo/model/TeamMember.java:16-19 | Defines `@NotBlank @Size(2, 100)` on the full name. `FullNameExamples` states accepted and rejected names. |
| RosterModel.ValidNic | src/main/java/com/example/demo/model/TeamMember.java:21-24 | Defines `@NotBlank @Pattern("^[0-9]{12}$")` on the NIC. `DigitRules` states it as exactly 12 digits. |
| RosterModel.ValidContactNo | src/main/java/com/example/demo/model/TeamMember.java:26-29 | Defines `@NotBlank @Pattern("^[0-9]{10,15}$")` on the contact number. `DigitRules` states it as 10 to 15 digits. |
| RosterModel.ValidAddress | src/main/java/com/example/demo/model/TeamMember.java:39-42 | Defines `@NotBlank @Size(5, 200)` on the address. |
| RosterModel.ValidBirthDate | src/main/java/com/example/demo/model/TeamMember.java:31-34 | Defines `@NotNull @Past`: a birth date is present and strictly before today. |
| RosterModel.ValidJoinedDate | src/main/java/com/example/demo/model/TeamMember.java:52-55 | Defines `@PastOrPresent`: the joined date is on or before today. |
| RosterModel.SatisfiesConstraints | src/main/java/com/example/demo/model/TeamMember.java:16-55 | Defines the conjunction of every annotated field constraint of the entity. |
| RosterModel.DigitsNotBlank | src/main/java/com/example/demo/model/TeamMember.java:21-27 | A digit string is non-blank exactly when it is non-empty. |
| RosterModel.DigitRules | src/main/java/com/example/demo/model/TeamMember.java:21-29 | The NIC is valid exactly when it is 12 decimal digits. The contact number is valid exactly when it has 10 to 15. |
| RosterModel.DigitFieldsAreTrimmed | src/main/java/com/example/demo/model/TeamMember.java:21-27 | A valid NIC or contact number has nothing for `trim()` to remove. |
| RosterModel.NicExamples | src/main/java/com/example/demo/model/TeamMember.java:21-24 | 12 digits is a valid NIC. 11 digits, 13 digits, a letter or a leading blank is not. |
| RosterModel.ContactNoExamples | src/main/java/com/example/demo/model/TeamMember.java:26-29 | A 10-digit contact number is accepted and a 9-digit one rejected. |
| RosterModel.FullNameExamples | src/main/java/com/example/demo/model/TeamMember.java:16-19 | The name "Al" is valid. "A", a name of spaces and a name of two U+0001 characters are not. |
| RosterModel.SupervisorIdOf | src/main/java/com/example/demo/model/TeamMember.java:201-203 | None exactly when there is no supervisor. Otherwise the supervisor's id. |
| RosterModel.SupervisorNameOf | src/main/java/com/example/demo/model/TeamMember.java:205-207 | None exactly when there is no supervisor. Otherwise "first last" with only the outer blanks trimmed. |
| RosterModel.TeamMember.constructor | src/main/java/com/example/demo/model/TeamMember.java:133-149 | All fields are assigned, and the age is derived from the birth date. No id and no timestamps yet. |
| RosterModel.TeamMember.Loaded | src/main/java/com/example/demo/service/TeamMemberService.java:69-70 | The entity `findById` loads: its state is exactly the stored record. `UpdateTeamMember` starts from it (lines 69-70), and so do `UpdateSupervisor` and `RemoveSupervisor` (lines 136-137, 150-151). |
| RosterModel.TeamMember.SetBirthDate | src/main/java/com/example/demo/model/TeamMember.java:165-168 | Sets the birth date and recomputes the age. Nothing else changes. |
| RosterModel.TeamMember.SetAge | src/main/java/com/example/demo/model/TeamMember.java:171 | Sets the age only. |
| RosterModel.TeamMember.SetId | src/main/java/com/example/demo/model/TeamMember.java:153 | Sets the id only. |
| RosterModel.TeamMember.SetSupervisor | src/main/java/com/example/demo/model/TeamMember.java:192 | Sets the supervisor only. |
| RosterModel.TeamMember.SetCreatedAt | src/main/java/com/example/demo/model/TeamMember.java:195 | Sets `createdAt` only. |
| RosterModel.TeamMember.OnCreate | src/main/java/com/example/demo/model/TeamMember.java:75-80 | The new state is `OnCreated` of the old one. |
| RosterModel.TeamMember.OnUpdate | src/main/java/com/example/demo/model/TeamMember.java:82-86 | The new state is `OnUpdated` of the old one. |
| RosterRepository.ExistsByNic | src/main/java/com/example/demo/repository/TeamMemberRepository.java:17 | Defines `existsByNic` as a first-match search on the NIC. `ExistsByNicIff` states it as the existence of a holder. |
| RosterRepository.ExistsByNicAndIdNot | src/main/java/com/example/demo/repository/TeamMemberRepository.java:18 | Defines `existsByNicAndIdNot` the same way, skipping the given id. `ExistsByNicIff` states it as the existence of another holder. |
| RosterRepository.ExistsByNicIff | src/main/java/com/example/demo/repository/TeamMemberRepository.java:17-18 | `existsByNic` holds exactly when some member has that NIC. `existsByNicAndIdNot` holds exactly when some member with another id has it. |
| RosterRepository.ExistsByNicAndIdNotImpliesExistsByNic | src/main/java/com/example/demo/repository/TeamMemberRepository.java:17-18 | A holder other than `id` implies a holder. |
| RosterRepository.Matches | src/main/java/com/example/demo/repository/TeamMemberRepository.java:103 | Defines one `LOWER(field) LIKE LOWER('%term%')` test. `ContainsIff` states containment as an occurrence at some index. |
| RosterRepository.MatchesSearch | src/main/java/com/example/demo/repository/TeamMemberRepository.java:102-107 | Defines the disjunction of that test over the full name, NIC, contact number, address and team id. |
| RosterRepository.SearchTeamMembers | src/main/java/com/example/demo/repository/TeamMemberRepository.java:102-108 | A member is found exactly when the lower-cased term occurs in the lower-cased full name, NIC, contact number, address or team id. |
| RosterRepository.MatchesEmptyTerm | src/main/java/com/example/demo/repository/TeamMemberRepository.java:103 | The empty term matches every field. |
| RosterRepository.SearchEmptyTermIsEverything | src/main/java/com/example/demo/repository/TeamMemberRepository.java:102-108 | Searching for the empty term returns the whole store, in order. |
| RosterRepository.MatchesSupervisorSearch | src/main/java/com/example/demo/repository/TeamMemberRepository.java:112-115 | Defines the four-field search test, with no address, of the supervisor-scoped search. `SupervisorSearchIgnoresAddress` and `SupervisorSearchWithinSearch` state how it differs from the general one. |
| RosterRepository.HasSupervisorId | src/main/java/com/example/demo/repository/TeamMemberRepository.java:26 | Defines `tm.supervisor.id = :supervisorId`: a supervisor is present and has that id. The tests at lines 30 and 37 are the same. `FindBySupervisorId` and `SupervisorQueriesAgree` state the queries built on it. |
| RosterRepository.SearchTeamMembersBySupervisor | src/main/java/com/example/demo/repository/TeamMemberRepository.java:111-117 | Exactly the members of that supervisor that match on name, NIC, contact number or team id. |
| RosterRepository.SupervisorSearchWithinSearch | src/main/java/com/example/demo/repository/TeamMemberRepository.java:102-117 | The supervisor-scoped search finds nothing the general search misses. |
| RosterRepository.SupervisorSearchIgnoresAddress | src/main/java/com/example/demo/repository/TeamMemberRepository.java:111-117 | A member matching on the address alone is found by the general search but not by the supervisor-scoped one. |
| RosterRepository.FindByFilters | src/main/java/com/example/demo/repository/TeamMemberRepository.java:120-129 | A member is returned exactly when it meets every supplied parameter. An absent parameter imposes nothing. |
| RosterRepository.NoFiltersIsEverything | src/main/java/com/example/demo/repository/TeamMemberRepository.java:120-129 | With all four parameters null, the result is the whole store, in order. |
| RosterRepository.FilterNarrows | src/main/java/com/example/demo/repository/TeamMemberRepository.java:121 | Supplying a team id only removes members, and every member kept has that team id. |
| RosterRepository.InsertByName | src/main/java/com/example/demo/repository/TeamMemberRepository.java:26 | Inserting into a name-sorted list keeps it sorted and adds exactly that member. |
| RosterRepository.SortByName | src/main/java/com/example/demo/repository/TeamMemberRepository.java:26 | `ORDER BY tm.fullName` yields a sorted permutation of its input. |
| RosterRepository.SortedByNameAll | src/main/java/com/example/demo/repository/TeamMemberRepository.java:26 | In a sorted list, any earlier name is ordered before or equal to any later one. |
| RosterRepository.FindBySupervisorId | src/main/java/com/example/demo/repository/TeamMemberRepository.java:26-27 | Exactly the members whose supervisor has that id, with multiplicity, sorted by full name. |
| RosterRepository.CountBySupervisorId | src/main/java/com/example/demo/repository/TeamMemberRepository.java:30-31 | Defines `countBySupervisorId` as a count independent of the listing. `SupervisorQueriesAgree` ties the two together. |
| RosterRepository.ExistsBySupervisorId | src/main/java/com/example/demo/repository/TeamMemberRepository.java:37-38 | Defines `existsBySupervisorId` as `CASE WHEN COUNT(tm) > 0`. `SupervisorQueriesAgree` states it as the existence of such a member. |
| RosterRepository.SupervisorQueriesAgree | src/main/java/com/example/demo/repository/TeamMemberRepository.java:26-38 | The listing's length equals `countBySupervisorId`. `existsBySupervisorId` holds exactly when some member has that supervisor. |
| RosterRepository.FindBySupervisorIsNull | src/main/java/com/example/demo/repository/TeamMemberRepository.java:34 | Exactly the members without a supervisor. |
| RosterRepository.MembersWithSupervisor | src/main/java/com/example/demo/repository/TeamMemberRepository.java:137-138 | Exactly the members with a supervisor. |
| RosterRepository.SupervisorPartition | src/main/java/com/example/demo/repository/TeamMemberRepository.java:34 | The members without a supervisor and those with one split the store, counted with multiplicity. |
| RosterRepository.SupervisorTeamCounts | src/main/java/com/example/demo/repository/TeamMemberRepository.java:56-57 | The keys are the supervisor ids that occur in the store. Each value is that supervisor's member count. |
| RosterRepository.TeamCountsPositive | src/main/java/com/example/demo/repository/TeamMemberRepository.java:56-57 | A supervisor appears exactly when it has at least one member, and then its count is at least 1. |
| RosterRepository.SupervisorsWithTeamSizeGreaterThan | src/main/java/com/example/demo/repository/TeamMemberRepository.java:60-61 | Exactly the occurring supervisors whose count is strictly above k, with their counts. |
| RosterRepository.TeamSizeBoundIsStrict | src/main/java/com/example/demo/repository/TeamMemberRepository.java:60 | A supervisor with exactly k members is not returned. |
| RosterRepository.AvailableSupervisor | src/main/java/com/example/demo/repository/TeamMemberRepository.java:64-65 | Defines the eligibility test: role SUPERVISOR, active, and fewer than the maximum members. `FindAvailableSupervisors` and `FullSupervisorExcluded` state the query built on it. |
| RosterRepository.FindAvailableSupervisors | src/main/java/com/example/demo/repository/TeamMemberRepository.java:64-66 | An id is returned exactly when some user with that id has role SUPERVISOR, is active, and has fewer than max members. |
| RosterRepository.FullSupervisorExcluded | src/main/java/com/example/demo/repository/TeamMemberRepository.java:64-66 | A supervisor already holding max or more members is never returned. |
| RosterRepository.FindBySupervisorIdAndSupervisorActive | src/main/java/com/example/demo/repository/TeamMemberRepository.java:42-43 | Exactly the members whose supervisor has that id and is active. |
| RosterRepository.ActiveListingWithinListing | src/main/java/com/example/demo/repository/TeamMemberRepository.java:26-43 | The active-supervisor listing contains only members of the plain supervisor listing, and only members whose supervisor is active. It is never longer than `countBySupervisorId`. |
| RosterRepository.FindByWorkingHoursPerDay | src/main/java/com/example/demo/repository/TeamMemberRepository.java:85 | Exactly the members with those working hours. |
| RosterRepository.WorkingHoursGroupsPartition | src/main/java/com/example/demo/repository/TeamMemberRepository.java:85 | Every member is listed under its own working hours and under no other. |
| RosterRepository.FindBySupervisorIdAndWorkingHours | src/main/java/com/example/demo/repository/TeamMemberRepository.java:88-90 | Exactly the members of that supervisor with those working hours. |
| RosterRepository.SupervisorWorkingHoursIsIntersection | src/main/java/com/example/demo/repository/TeamMemberRepository.java:85-90 | The scoped query returns exactly the members in both the working-hours listing and the supervisor listing. |
| RosterRepository.FindByJoinedDateBetween | src/main/java/com/example/demo/repository/TeamMemberRepository.java:93 | Exactly the members who joined on or after the start and on or before the end. |
| RosterRepository.JoinedDateRangeInclusive | src/main/java/com/example/demo/repository/TeamMemberRepository.java:93 | Members who joined on either end date are included. |
| RosterRepository.EmptyJoinedDateRange | src/main/java/com/example/demo/repository/TeamMemberRepository.java:93 | An end date before the start date returns nothing. |
| RosterRepository.FindBySupervisorIdAndJoinedDateBetween | src/main/java/com/example/demo/repository/TeamMemberRepository.java:96-99 | Exactly the members of that supervisor whose joined date lies in the inclusive range. |
| RosterRepository.SupervisorJoinedDateIsIntersection | src/main/java/com/example/demo/repository/TeamMemberRepository.java:93-99 | The scoped date query returns exactly the members in both the date-range listing and the supervisor listing. |
| RosterService.FindAll | src/main/java/com/example/demo/service/TeamMemberService.java:188 | Defines `findAll()` as the stored records in store order. `StoredIsListed`, `ListedIsStored` and `InsertedValid` state what it lists. |
| RosterService.StoredIsListed | src/main/java/com/example/demo/service/TeamMemberService.java:188 | In a well-formed store every stored record appears in `findAll()`. |
| RosterService.ListedIsStored | src/main/java/com/example/demo/service/TeamMemberService.java:188 | Every record `findAll()` lists has an id, and it is stored under that id. |
| RosterService.AgeAccepted | src/main/java/com/example/demo/service/TeamMemberService.java:195-200 | Defines `validateAge` passing: the `Period.between` year count to today lies in [18, 80]. `AgeAcceptedIff` states it in calendar terms. |
| RosterService.AgeAcceptedIff | src/main/java/com/example/demo/service/TeamMemberService.java:195-200 | A birth date is accepted exactly when it is on or before today and the anniversary-counted age is between 18 and 80. |
| RosterService.AgeBoundaryExamples | src/main/java/com/example/demo/service/TeamMemberService.java:195-200 | On 2024-06-01, ages 18 and 80 are accepted and ages 17 and 81 are rejected. |
| RosterService.ResolveSupervisor | src/main/java/com/example/demo/service/TeamMemberService.java:56-61 | No id gives no supervisor. A supplied id gives a stored user with that id, or supervisor-not-found when no user has it. |
| RosterService.Converted | src/main/java/com/example/demo/service/TeamMemberService.java:202-216 | Defines `convertToEntity` on a request, with its three parse failures. `ConvertedSpec` states what it builds. |
| RosterService.ConvertedSpec | src/main/java/com/example/demo/service/TeamMemberService.java:202-216 | Conversion fails exactly on an unknown city, specialization or hours label, in that order of precedence. Otherwise it builds trimmed name, NIC and address, copies the other fields verbatim, parses the enums case-insensitively, derives the age and attaches the given supervisor. |
| RosterService.CreateResult | src/main/java/com/example/demo/service/TeamMemberService.java:47-64 | Defines `createTeamMember` on a store: the age check, the NIC check, the supervisor lookup, the conversion, then `@PrePersist` with the next id. `CreateChecks`, `CreateSuccess` and `CreateResultIs` state its meaning. |
| RosterService.CreateSuccess | src/main/java/com/example/demo/service/TeamMemberService.java:47-64 | A stored record has the next id, both timestamps now, trimmed name, NIC and address, and an age between 18 and 80 derived from the birth date. It has no supervisor when none was given, and otherwise a stored user with the given id. |
| RosterService.CreateResultIs | src/main/java/com/example/demo/service/TeamMemberService.java:47-64 | When every check passes, create stores the converted entity with the next id, after `onCreate`. |
| RosterService.CreateChecks | src/main/java/com/example/demo/service/TeamMemberService.java:47-63 | A bad age fails first. A NIC that `existsByNic` finds fails next. Create succeeds exactly when age, NIC, supervisor and all three parses pass. |
| RosterService.CreateChecksAgeBeforeNic | src/main/java/com/example/demo/service/TeamMemberService.java:48-54 | An under-age request with a taken NIC reports the age. |
| RosterService.Inserted | src/main/java/com/example/demo/service/TeamMemberService.java:64 | Defines `save` of a new entity: stored under the next id and appended to `findAll()` order. `InsertedValid` states its effect. |
| RosterService.InsertedKeepsValid | src/main/java/com/example/demo/service/TeamMemberService.java:64 | Saving a record that carries the next id keeps the store well formed: the new id is listed exactly once. |
| RosterService.InsertedValid | src/main/java/com/example/demo/service/TeamMemberService.java:64 | Saving a new record adds exactly its id and appends it to `findAll()`. All other records stay as they were, and the store stays well formed. |
| RosterService.CreateAddsExactlyOne | src/main/java/com/example/demo/service/TeamMemberService.java:63-64 | A successful create adds exactly one record, at the end of `findAll()`, and leaves every other record unchanged. |
| RosterService.SecondCreateConflicts | src/main/java/com/example/demo/service/TeamMemberService.java:51-54 | After a create, a valid-age request with the stored (trimmed) NIC fails as a duplicate. |
| RosterService.CreatePreservesUniqueNics | src/main/java/com/example/demo/service/TeamMemberService.java:51-54 | When the submitted NIC has nothing to trim, create keeps NICs unique. |
| RosterService.NoHolderAfterCheck | src/main/java/com/example/demo/service/TeamMemberService.java:52 | When `existsByNic` is false, no stored record has that NIC. |
| RosterService.InsertPreservesUniqueNics | src/main/java/com/example/demo/service/TeamMemberService.java:64 | Inserting a record whose NIC no stored record has keeps NICs unique. |
| RosterService.UntrimmedNicStoresDuplicate | src/main/java/com/example/demo/service/TeamMemberService.java:47-64 | The check tests the submitted NIC (line 52) but the trimmed NIC is stored (line 205). A request that differs from a stored NIC only by outer blanks, if it succeeds, stores a second holder of that NIC. |
| RosterService.UntrimmedNicExample | src/main/java/com/example/demo/service/TeamMemberService.java:202-205 | With "200012345678" stored, the request " 200012345678" passes every check and breaks NIC uniqueness. |
| RosterService.UpdateResult | src/main/java/com/example/demo/service/TeamMemberService.java:68-93 | Defines `updateTeamMember` on a store: the NIC check, the age check, the supervisor lookup, the conversion, then the id and `createdAt` carried over and `@PreUpdate`. `UpdateSuccess` and `UpdateResultIs` state its meaning. |
| RosterService.UpdateSuccess | src/main/java/com/example/demo/service/TeamMemberService.java:68-93 | An absent id gives None. A successful update stores a record with the same id, the old `createdAt`, `updatedAt` now, trimmed strings and an age derived in [18, 80]. The supervisor is none when no id is given, and otherwise the resolved user. |
| RosterService.UpdateResultIs | src/main/java/com/example/demo/service/TeamMemberService.java:68-93 | When every check passes, update stores the converted entity with the old id and `createdAt`, after `onUpdate`. |
| RosterService.Replaced | src/main/java/com/example/demo/service/TeamMemberService.java:91 | Defines `save` of an existing entity: the record under its id is replaced. `UpdateReplacesOnlyTarget` states its effect. |
| RosterService.UpdateOwnNicNoConflict | src/main/java/com/example/demo/service/TeamMemberService.java:72-75 | Resubmitting the member's own NIC never gives a NIC conflict. |
| RosterService.UpdateConflictHasOtherHolder | src/main/java/com/example/demo/service/TeamMemberService.java:72-75 | A NIC conflict on update means a stored member with another id holds that NIC. |
| RosterService.UpdateChecksNicBeforeAge | src/main/java/com/example/demo/service/TeamMemberService.java:71-78 | An under-age update carrying another holder's NIC reports the NIC. |
| RosterService.UpdateReplacesOnlyTarget | src/main/java/com/example/demo/service/TeamMemberService.java:87-91 | A successful update keeps the ids, the order and every other record, and the store stays well formed. |
| RosterService.NoOtherHolderAfterCheck | src/main/java/com/example/demo/service/TeamMemberService.java:72-73 | When `existsByNicAndIdNot(nic, id)` is false, no stored record other than `id` has that NIC. |
| RosterService.ReplacePreservesUniqueNics | src/main/java/com/example/demo/service/TeamMemberService.java:91 | Replacing a record by one whose NIC no other stored record has keeps NICs unique. |
| RosterService.UpdatePreservesUniqueNics | src/main/java/com/example/demo/service/TeamMemberService.java:71-75 | When the submitted NIC has nothing to trim, update keeps NICs unique. |
| RosterService.Deleted | src/main/java/com/example/demo/service/TeamMemberService.java:96-102 | Returns true exactly when the id was present. Afterwards the id is gone and every other record is unchanged. |
| RosterService.DeleteKeepsValid | src/main/java/com/example/demo/service/TeamMemberService.java:96-102 | Delete keeps the store well formed, and the id is absent afterwards. |
| RosterService.UpdateSupervisorResult | src/main/java/com/example/demo/service/TeamMemberService.java:135-147 | An absent member gives None. For a present member the call fails exactly when a supplied supervisor id does not resolve. Otherwise only the supervisor, the age and `updatedAt` change. `updatedAt` is now. With no id the supervisor is none; otherwise it is the user `findById` returns. |
| RosterService.RemoveSupervisorResult | src/main/java/com/example/demo/service/TeamMemberService.java:149-156 | None exactly when the member is absent. Otherwise the supervisor is cleared and `updatedAt` is now, and nothing but the supervisor, the age and `updatedAt` changes. |
| RosterService.SupervisorChangeAge | src/main/java/com/example/demo/service/TeamMemberService.java:149-156 | Clearing the supervisor leaves the age derived from the stored birth date and keeps the store well formed. |
| RosterService.UpdateSupervisorAge | src/main/java/com/example/demo/service/TeamMemberService.java:143-144 | On a successful assignment the `@PreUpdate` hook stores the age derived from the stored birth date. |
| RosterService.UpdateSupervisorKeepsValid | src/main/java/com/example/demo/service/TeamMemberService.java:135-147 | A successful supervisor assignment keeps the store well formed. |
| RosterService.TeamMembersByAgeRange | src/main/java/com/example/demo/service/TeamMemberService.java:187-193 | Exactly the members whose age lies in [min, max]. |
| RosterService.AgeRangeKeepsOrder | src/main/java/com/example/demo/service/TeamMemberService.java:187-193 | The selection distributes over concatenation, so it keeps store order. |
| RosterService.StoredAgesPresent | src/main/java/com/example/demo/service/TeamMemberService.java:190 | Every stored member has an age, so the unboxing in the filter never fails. |
| RosterService.ConvertToEntity | src/main/java/com/example/demo/service/TeamMemberService.java:202-216 | A fresh entity whose state is what `Converted` specifies, or `Converted`'s error. |
| RosterService.TeamMemberService.CreateTeamMember | src/main/java/com/example/demo/service/TeamMemberService.java:47-66 | Returns `CreateResult` of the old store. On success the new store is the old one with the record inserted; on failure it is unchanged. |
| RosterService.TeamMemberService.UpdateTeamMember | src/main/java/com/example/demo/service/TeamMemberService.java:68-94 | Returns `UpdateResult` of the old store. On success the target record is replaced; on None or failure the store is unchanged. |
| RosterService.TeamMemberService.DeleteTeamMember | src/main/java/com/example/demo/service/TeamMemberService.java:96-102 | Returns and produces what `Deleted` gives. |
| RosterService.TeamMemberService.UpdateSupervisor | src/main/java/com/example/demo/service/TeamMemberService.java:135-147 | Returns `UpdateSupervisorResult` of the old store. On success the member's record is replaced; otherwise the store is unchanged. |
| RosterService.TeamMemberService.RemoveSupervisor | src/main/java/com/example/demo/service/TeamMemberService.java:149-156 | Returns `RemoveSupervisorResult` of the old store. When the member is present its record is replaced; otherwise the store is unchanged. |
| RosterService.TeamMemberService.GetTeamMembersByAgeRange | src/main/java/com/example/demo/service/TeamMemberService.java:187-193 | Read-only. The age-range selection over `findAll()`, whose members all have ages. |

## Left out

- `getAppointmentsByCustomer` for a username that does not resolve: the code passes an empty `Optional<User>` to a repository method that is not part of this model, so the method returns None there.
- The `Appointment` entity, `AppointmentDTO` and `AppointmentRepository` are not part of this model. Their field types (strings, an integer year, a local date) are assumed.
- The `User` entity is not part of this model. It is reduced to id, username, first and last name, role and active flag.
- `TeamMemberDTO` is not part of this model. Its fields are assumed non-null, so the `NullPointerException`s a null name, NIC, address, city, specialization or birth date would raise are not modelled.
- Case mapping is modelled for ASCII only. `String.trim()` and `@NotBlank` are exact.
- `ValidFullName` and `ValidAddress`: `@Size` counts UTF-16 code units, while the model counts code points. A name with characters outside the Basic Multilingual Plane can be within 100 in the model but over it for the validator.
- String order and equality: `SortByName`, `FindBySupervisorId` and `StringLe` use code-point order, not the database collation behind `ORDER BY tm.fullName`. Under a case-insensitive collation "alice" sorts before "Bob"; here it sorts after. The equality tests on strings (the team id, NIC and username lookups, `role = 'SUPERVISOR'`) are likewise exact comparisons, not collation-aware ones.
- SQL `LIKE` wildcards inside a search term, and the database collation of `LOWER`: the term is matched literally with ASCII lower-casing.
- The SQL `ORDER BY` does not fix the order of members with equal names. `RosterRepository.FindBySupervisorId` does not fix it either; its sort happens to keep input order for ties.
- The `JOIN FETCH` variants (TeamMemberRepository.java:133-138) are a loading strategy. Only their selection, members that have a supervisor, is modelled (`MembersWithSupervisor`).
- Some single-field finders and some supervisor-scoped finders with one extra equality are not modelled separately. These are `findByTeamId`, `countByTeamId`, `findBySupervisorIdAndTeamId`, `countBySupervisorIdAndSpecialization`, `findBySpecialization`, `findBySupervisorIdAndSpecialization`, `findByCity` and `findBySupervisorIdAndCity` (TeamMemberRepository.java:21-22, 46-52, 69-82). Each tests equality on the team id, specialization, city or supervisor id, which are parameters of `FindByFilters`; the counts are the lengths of those selections.
- `convertToDTO` and the pass-through list, count and lookup methods of `TeamMemberService` (getAll, getById, byTeam, bySupervisor, counts, withoutSupervisor, search, joinedBetween) only map repository results to DTOs.
- `getTeamMembersBySpecialization`, `getTeamMembersByCity` and `getTeamMembersByWorkingHours` (TeamMemberService.java:104-118, 172-178) are not modelled as service members. Each first parses its argument, as `ParseSpecialization`, `ParseDistrict` and `ParseWorkingHours` model, and an unknown value throws `IllegalArgumentException` there (None in the model). Each then runs the matching repository finder and maps the results to DTOs.
- The Bean Validation annotations are stated as predicates (`SatisfiesConstraints`) with their properties. Whether a validator enforces them on save depends on configuration that is not part of this model, so no operation checks them.
- Hibernate's merge and dirty checking: every save runs the matching hook, and a save of an entity with an existing id replaces the stored record.
- The database unique constraint on NIC, transactions and concurrent requests.
- The clock: `onCreate` reads `LocalDateTime.now()` twice, and the model takes both reads as one instant `now`. Every `LocalDate.now()` within one operation is the same `today`.
- Ids are unbounded integers handed out by a counter in place of the database identity column. `Long` overflow is not modelled.
- Transitions to `CONFIRMED`, `IN_PROGRESS` or `COMPLETED`: nothing in the code performs them.
- `TeamResponseDTO` is not part of this model: it carries data only.
- RosterService.CreatePreservesUniqueNics: proved only when the submitted NIC has nothing to trim, which holds for every NIC matching the 12-digit pattern (`DigitFieldsAreTrimmed`). Without that condition the property fails, as `UntrimmedNicStoresDuplicate` shows.
- RosterService.UpdatePreservesUniqueNics: likewise only when the submitted NIC has nothing to trim.
- RosterService.TeamMembersByAgeRange: requires every member to have an age, because the code unboxes `getAge()`. Every well-formed store meets this (`StoredAgesPresent`).
