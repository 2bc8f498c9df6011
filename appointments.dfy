/**
 * The appointment lifecycle (AppointmentService): creating an appointment for a resolved customer,
 * reading its status and cancelling it. The store is a map from appointment id to record.
 */
module Appointments {
  import opened Results
  import opened Dates
  import opened Users

  /** The five appointment states. */
  datatype AppointmentStatus = Pending | Confirmed | InProgress | Completed | Cancelled

  /** Enum.name() of a status. */
  function StatusName(s: AppointmentStatus): string
  {
    match s
    case Pending => "PENDING"
    case Confirmed => "CONFIRMED"
    case InProgress => "IN_PROGRESS"
    case Completed => "COMPLETED"
    case Cancelled => "CANCELLED"
  }

  /** Distinct states have distinct names, so the status string returned to callers identifies the state. */
  lemma StatusNameInjective(a: AppointmentStatus, b: AppointmentStatus)
    ensures StatusName(a) == StatusName(b) ==> a == b
  {
  }

  /** The states from which the owner may cancel. */
  predicate IsCancellable(s: AppointmentStatus)
  {
    s != Cancelled && s != Completed
  }

  /** The descriptive fields a customer submits (AppointmentDTO). */
  datatype AppointmentRequest = AppointmentRequest(
    vehicleType: string, vehicleBrand: string, model: string, yearOfManufacture: int,
    registerNumber: string, fuelType: string, serviceCategory: string, serviceType: string,
    additionalRequirements: string, appointmentDate: LocalDate, timeSlot: string)

  /** A stored appointment: its id, its owner, the descriptive fields and the status. */
  datatype Appointment = Appointment(
    id: int, user: User,
    vehicleType: string, vehicleBrand: string, model: string, yearOfManufacture: int,
    registerNumber: string, fuelType: string, serviceCategory: string, serviceType: string,
    additionalRequirements: string, appointmentDate: LocalDate, timeSlot: string,
    status: AppointmentStatus)

  /** The failures of the service. The first three are IllegalArgumentException, the last two IllegalStateException. */
  datatype AppointmentError = UserNotFound | AppointmentNotFound | NotAuthorized
                            | AlreadyCancelled | CompletedNotCancellable
  {
    predicate IsIllegalArgument()
    {
      UserNotFound? || AppointmentNotFound? || NotAuthorized?
    }
  }

  /** The descriptive fields of a stored appointment, as a request. */
  function Details(a: Appointment): AppointmentRequest
  {
    AppointmentRequest(a.vehicleType, a.vehicleBrand, a.model, a.yearOfManufacture,
                       a.registerNumber, a.fuelType, a.serviceCategory, a.serviceType,
                       a.additionalRequirements, a.appointmentDate, a.timeSlot)
  }

  /** The appointment that createAppointment assembles by its setter calls, before the store assigns the id. */
  function NewAppointment(id: int, owner: User, req: AppointmentRequest): (a: Appointment)
    ensures a.id == id && a.user == owner && a.status == Pending
    ensures Details(a) == req
  {
    Appointment(id, owner,
                req.vehicleType, req.vehicleBrand, req.model, req.yearOfManufacture,
                req.registerNumber, req.fuelType, req.serviceCategory, req.serviceType,
                req.additionalRequirements, req.appointmentDate, req.timeSlot,
                Pending)
  }

  /**
   * cancelAppointment: existence is checked first, then ownership, then the status;
   * on success only the status of that one appointment changes, to Cancelled.
   */
  function Cancel(store: map<int, Appointment>, id: int, username: string)
    : (r: Result<map<int, Appointment>, AppointmentError>)
    ensures id !in store ==> r == Failure(AppointmentNotFound)
    ensures id in store && store[id].user.username != username ==> r == Failure(NotAuthorized)
    ensures id in store && store[id].user.username == username && store[id].status == Cancelled
            ==> r == Failure(AlreadyCancelled)
    ensures id in store && store[id].user.username == username && store[id].status == Completed
            ==> r == Failure(CompletedNotCancellable)
    ensures r.Success? <==>
            id in store && store[id].user.username == username && IsCancellable(store[id].status)
    ensures r.Success? ==> r.value.Keys == store.Keys && r.value[id].status == Cancelled
                           && r.value[id] == store[id].(status := Cancelled)
                           && forall k :: k in store && k != id ==> r.value[k] == store[k]
  {
    if id !in store then Failure(AppointmentNotFound)
    else
      var a := store[id];
      if a.user.username != username then Failure(NotAuthorized)
      else if a.status == Cancelled then Failure(AlreadyCancelled)
      else if a.status == Completed then Failure(CompletedNotCancellable)
      else Success(store[id := a.(status := Cancelled)])
  }

  /** A successful cancel is followed by a failing one: cancellation is not idempotent. */
  lemma CancelNotIdempotent(store: map<int, Appointment>, id: int, username: string)
    requires Cancel(store, id, username).Success?
    ensures Cancel(Cancel(store, id, username).value, id, username) == Failure(AlreadyCancelled)
  {
  }

  /** Whatever the status, a non-owner's cancel fails with the authorization error, an IllegalArgumentException. */
  lemma NonOwnerCancelFails(store: map<int, Appointment>, id: int, username: string, s: AppointmentStatus)
    requires id in store && store[id].user.username != username
    ensures Cancel(store[id := store[id].(status := s)], id, username) == Failure(NotAuthorized)
    ensures NotAuthorized.IsIllegalArgument()
  {
  }

  /** Cancelled and Completed are terminal: cancel never leaves them, and failures are IllegalStateException. */
  lemma TerminalStatesStay(store: map<int, Appointment>, id: int, username: string)
    requires id in store && store[id].status in {Cancelled, Completed}
    ensures Cancel(store, id, username).Failure?
    ensures store[id].user.username == username ==> !Cancel(store, id, username).error.IsIllegalArgument()
  {
  }

  /** Cancel never changes an owner, an id or a descriptive field, in any appointment. */
  lemma CancelKeepsEverythingButStatus(store: map<int, Appointment>, id: int, username: string)
    requires Cancel(store, id, username).Success?
    ensures var s := Cancel(store, id, username).value;
            forall k :: k in store ==>
              k in s && s[k].id == store[k].id && s[k].user == store[k].user && Details(s[k]) == Details(store[k])
  {
  }

  /** The appointment store and the read-only user directory it resolves owners against. */
  class AppointmentService {
    var appointments: map<int, Appointment>
    var nextId: int
    const users: seq<User>

    /** Every stored appointment sits under its own id, and ids below nextId are the only ones used. */
    ghost predicate Valid()
      reads this
    {
      nextId >= 1 && forall k :: k in appointments ==> 1 <= k < nextId && appointments[k].id == k
    }

    constructor (users: seq<User>)
      ensures Valid() && appointments == map[] && nextId == 1 && this.users == users
    {
      appointments := map[];
      nextId := 1;
      this.users := users;
    }

    /** createAppointment: resolves the owner, copies the request and stores a Pending appointment. */
    method CreateAppointment(req: AppointmentRequest, username: string)
      returns (res: Result<Appointment, AppointmentError>)
      requires Valid()
      modifies this
      ensures Valid()
      ensures FindByUsername(users, username).None? ==>
                res == Failure(UserNotFound) && appointments == old(appointments) && nextId == old(nextId)
      ensures FindByUsername(users, username).Some? ==>
                && res == Success(NewAppointment(old(nextId), FindByUsername(users, username).value, req))
                && old(nextId) !in old(appointments)
                && appointments == old(appointments)[old(nextId) := res.value]
                && nextId == old(nextId) + 1
    {
      var user := FindByUsername(users, username);
      if user.None? {
        return Failure(UserNotFound);
      }
      var appointment := NewAppointment(nextId, user.value, req);
      appointments := appointments[nextId := appointment];
      nextId := nextId + 1;
      res := Success(appointment);
    }

    /** getAppointmentStatus: the name of the current status, read-only. */
    method GetAppointmentStatus(id: int) returns (res: Result<string, AppointmentError>)
      ensures id !in appointments ==> res == Failure(AppointmentNotFound)
      ensures id in appointments ==> res == Success(StatusName(appointments[id].status))
    {
      if id !in appointments {
        return Failure(AppointmentNotFound);
      }
      res := Success(StatusName(appointments[id].status));
    }

    /**
     * getAppointmentsByCustomer for a username that resolves: the appointments that user owns,
     * in no particular order. What the store returns for an unresolved username is not modelled (None).
     */
    method GetAppointmentsByCustomer(username: string) returns (res: Option<set<Appointment>>)
      ensures res.Some? <==> FindByUsername(users, username).Some?
      ensures res.Some? ==> forall a :: a in res.value <==>
                a in appointments.Values && a.user == FindByUsername(users, username).value
    {
      var user := FindByUsername(users, username);
      if user.None? {
        return None;
      }
      res := Some(set a | a in appointments.Values && a.user == user.value);
    }

    /** cancelAppointment: loads the record, sets its status to Cancelled and saves it back. */
    method CancelAppointment(id: int, username: string) returns (res: Outcome<AppointmentError>)
      requires Valid()
      modifies this
      ensures Valid() && nextId == old(nextId)
      ensures match Cancel(old(appointments), id, username)
              case Success(s) => res == Pass && appointments == s
              case Failure(e) => res == Fail(e) && appointments == old(appointments)
    {
      if id !in appointments {
        return Fail(AppointmentNotFound);
      }
      var appointment := appointments[id];
      if appointment.user.username != username {
        return Fail(NotAuthorized);
      }
      if appointment.status == Cancelled {
        return Fail(AlreadyCancelled);
      }
      if appointment.status == Completed {
        return Fail(CompletedNotCancellable);
      }
      appointment := appointment.(status := Cancelled);
      appointments := appointments[id := appointment];
      res := Pass;
    }
  }
}
