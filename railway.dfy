/** The values the train service reads: stations, passengers, tickets, trains,
    times of day, and the outcome of a query that can fail. */
module Railway {

  /** The name of a constant of the `Station` enumeration. A Java enum constant
      is named by a non-empty identifier, and an identifier holds neither a
      comma nor a space. */
  type StationName = s: string | |s| > 0 && ',' !in s && ' ' !in s witness "A"

  /** A stop of the closed `Station` enumeration. Enum constants have distinct
      names, so two stations are equal exactly when their names are. */
  datatype Station = Station(name: StationName)

  datatype Passenger = Passenger(age: int)

  /** One booking: the stations where it starts and ends, and who travels on it. */
  datatype Ticket = Ticket(fromStation: Station, toStation: Station, passengers: seq<Passenger>)

  const MinutesPerHour := 60
  const MinutesPerDay := 1440

  /** A wall-clock time of day, in whole minutes since midnight (seconds and
      nanoseconds are always zero). */
  type TimeOfDay = m: int | 0 <= m < 1440

  /** `LocalTime.plusHours`: time-of-day arithmetic that wraps at midnight. The
      result is the one time of day that differs from `t + hours` by whole days. */
  function PlusHours(t: TimeOfDay, hours: nat): (r: TimeOfDay)
    ensures (t + hours * MinutesPerHour - r) % MinutesPerDay == 0
    ensures t + hours * MinutesPerHour < MinutesPerDay ==> r == t + hours * MinutesPerHour
  {
    (t + hours * MinutesPerHour) % MinutesPerDay
  }

  /** A stored train. `route` is the serialised station list built by `addTrain`. */
  datatype Train = Train(
    trainId: int,
    route: string,
    departureTime: TimeOfDay,
    noOfSeats: int,
    bookedTickets: seq<Ticket>)

  datatype Option<T> = None | Some(value: T)

  /** The two ways a query fails: `findById(..).get()` finding no train, and the
      exception "Train is not passing from this station". */
  datatype Error = TrainNotFound | StationNotServed

  datatype Result<T> = Ok(value: T) | Err(error: Error)

  /** `trainRepository.findById(id)`, over the trains in the store. */
  function FindById(repo: seq<Train>, id: int): (r: Option<Train>)
    ensures r.None? <==> forall k :: 0 <= k < |repo| ==> repo[k].trainId != id
    ensures r.Some? ==> r.value.trainId == id && r.value in repo
  {
    if repo == [] then None
    else if repo[0].trainId == id then Some(repo[0])
    else FindById(repo[1..], id)
  }
}
