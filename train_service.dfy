/** The train service: building a train's route, and the four read-only
    queries over the trains in the store and their booked tickets. Each query
    walks its tickets or trains with a loop, as the service does, and is
    specified by a function over sequences. */
module TrainService {
  import opened Railway
  import opened RouteText

  /** The names of the stations, in order. A station is in the list exactly
      when its name is among the names, since enum constants have distinct names. */
  function Names(stations: seq<Station>): (names: seq<string>)
    ensures forall s: Station :: s in stations <==> s.name in names
  {
    var names := seq(|stations|, i requires 0 <= i < |stations| => stations[i].name);
    assert forall s: Station :: s.name in names ==> s in stations by {
      forall s: Station | s.name in names
        ensures s in stations
      {
        var i :| 0 <= i < |names| && names[i] == s.name;
        assert stations[i] == s;
      }
    }
    assert forall s: Station :: s in stations ==> s.name in names by {
      forall s: Station | s in stations
        ensures s.name in names
      {
        var i :| 0 <= i < |stations| && stations[i] == s;
        assert names[i] == s.name;
      }
    }
    names
  }

  /** What the route string of a train built from `stations` reads back as. */
  function RouteAsRead(stations: seq<Station>): seq<string>
  {
    if stations == [] then [""] else Names(stations)
  }

  // ---------------------------------------------------------------- addTrain

  /** The route-building loop of `addTrain`: the first name alone, every later
      one after a separator. */
  method BuildRoute(stations: seq<Station>) returns (route: string)
    ensures route == Join(Names(stations))
    ensures Split(route) == RouteAsRead(stations)
  {
    route := "";
    for i := 0 to |stations|
      invariant route == Join(Names(stations[..i]))
      invariant (|route| == 0) == (i == 0)
    {
      assert Names(stations[..i + 1]) == Names(stations[..i]) + [stations[i].name];
      assert Names(stations[..i + 1])[..i] == Names(stations[..i]);
      if |route| == 0 {
        route := route + stations[i].name;
      } else {
        route := route + Separator + stations[i].name;
      }
    }
    assert stations[..|stations|] == stations;
    RouteRoundTrip(Names(stations));
  }

  /** `addTrain`: the train handed to the store. The id the database assigns
      is the parameter `generatedId`. */
  method AddTrain(stations: seq<Station>, departureTime: TimeOfDay, noOfSeats: int, generatedId: int)
    returns (train: Train)
    ensures train.trainId == generatedId
    ensures train.departureTime == departureTime && train.noOfSeats == noOfSeats
    ensures train.bookedTickets == []
    ensures train.route == Join(Names(stations))
    ensures Split(train.route) == RouteAsRead(stations)
    ensures stations != [] ==> !(Separator <= train.route)
    ensures var r := train.route; !(|r| >= 2 && r[|r| - 2..] == Separator)
  {
    var route := BuildRoute(stations);
    if stations != [] {
      JoinHasNoOuterSeparator(Names(stations));
    }
    train := Train(generatedId, route, departureTime, noOfSeats, []);
  }

  /** A train's route string names `station`: the `anyMatch` / `noneMatch`
      test of the service. */
  predicate PassesThrough(train: Train, station: Station): (b: bool)
    ensures b <==> IndexOf(Split(train.route), station.name) >= 0
    ensures b ==> |train.route| > 0
  {
    station.name in Split(train.route)
  }

  // ------------------------------------------- counting passengers on tickets

  /** Which tickets a count takes in: an exact (from, to) pair, or a start. */
  datatype TicketFilter = ExactPair(from: Station, to: Station) | StartsAt(station: Station)

  predicate Selects(f: TicketFilter, t: Ticket)
  {
    match f
    case ExactPair(a, b) => t.fromStation == a && t.toStation == b
    case StartsAt(s) => t.fromStation == s
  }

  /** The number of passengers over the tickets `f` selects. */
  function Passengers(ts: seq<Ticket>, f: TicketFilter): nat
  {
    if ts == [] then 0
    else Passengers(ts[..|ts| - 1], f) + (if Selects(f, ts[|ts| - 1]) then |ts[|ts| - 1].passengers| else 0)
  }

  lemma {:induction false} PassengersConcat(a: seq<Ticket>, b: seq<Ticket>, f: TicketFilter)
    ensures Passengers(a + b, f) == Passengers(a, f) + Passengers(b, f)
    decreases |b|
  {
    if b == [] {
      assert a + b == a;
    } else {
      assert (a + b)[..|a + b| - 1] == a + b[..|b| - 1];
      PassengersConcat(a, b[..|b| - 1], f);
    }
  }

  /** The count is zero exactly when every selected ticket has no passengers. */
  lemma {:induction false} PassengersZero(ts: seq<Ticket>, f: TicketFilter)
    ensures Passengers(ts, f) == 0 <==>
      forall k :: 0 <= k < |ts| && Selects(f, ts[k]) ==> ts[k].passengers == []
    decreases |ts|
  {
    if ts != [] {
      var n := |ts|;
      PassengersZero(ts[..n - 1], f);
      assert forall k :: 0 <= k < n - 1 ==> ts[..n - 1][k] == ts[k];
    }
  }

  /** Adding a ticket anywhere changes the count by its passengers when `f`
      selects it, and not at all otherwise. */
  lemma PassengersInsert(ts: seq<Ticket>, k: nat, t: Ticket, f: TicketFilter)
    requires k <= |ts|
    ensures Passengers(ts[..k] + [t] + ts[k..], f)
      == Passengers(ts, f) + (if Selects(f, t) then |t.passengers| else 0)
  {
    var front, back := ts[..k], ts[k..];
    var own := if Selects(f, t) then |t.passengers| else 0;
    assert Passengers([t], f) == own by {
      assert [t][..0] == [];
    }
    assert Passengers(front + [t], f) == Passengers(front, f) + own by {
      PassengersConcat(front, [t], f);
    }
    assert Passengers(front + [t] + back, f) == Passengers(front + [t], f) + Passengers(back, f) by {
      PassengersConcat(front + [t], back, f);
    }
    assert Passengers(ts, f) == Passengers(front, f) + Passengers(back, f) by {
      assert front + back == ts;
      PassengersConcat(front, back, f);
    }
  }

  // ------------------------------------------------- calculateAvailableSeats

  /** Seats left between two stations: every seat, less the passengers on the
      tickets whose (from, to) pair is exactly the one asked about. */
  function AvailableSeats(train: Train, fromStation: Station, toStation: Station): int
  {
    train.noOfSeats - Passengers(train.bookedTickets, ExactPair(fromStation, toStation))
  }

  method CalculateAvailableSeats(repo: seq<Train>, trainId: int, fromStation: Station, toStation: Station)
    returns (r: Result<int>)
    ensures FindById(repo, trainId).None? ==> r == Err(TrainNotFound)
    ensures FindById(repo, trainId).Some? ==>
      r == Ok(AvailableSeats(FindById(repo, trainId).value, fromStation, toStation))
  {
    var found := FindById(repo, trainId);
    if found.None? {
      return Err(TrainNotFound);
    }
    var train := found.value;
    var noOfSeats := train.noOfSeats;
    var tickets := train.bookedTickets;
    var booked := 0;
    for i := 0 to |tickets|
      invariant booked == Passengers(tickets[..i], ExactPair(fromStation, toStation))
    {
      assert tickets[..i + 1][..i] == tickets[..i];
      if tickets[i].fromStation == fromStation && tickets[i].toStation == toStation {
        booked := booked + |tickets[i].passengers|;
      }
    }
    assert tickets[..|tickets|] == tickets;
    return Ok(noOfSeats - booked);
  }

  /** Availability never exceeds the seat count, and equals it exactly when no
      passenger holds a ticket for that very pair. No route check is made. */
  lemma AvailableSeatsAtMostCapacity(train: Train, fromStation: Station, toStation: Station)
    ensures AvailableSeats(train, fromStation, toStation) <= train.noOfSeats
    ensures AvailableSeats(train, fromStation, toStation) == train.noOfSeats <==>
      forall k :: 0 <= k < |train.bookedTickets| &&
        (train.bookedTickets[k].fromStation == fromStation && train.bookedTickets[k].toStation == toStation)
        ==> train.bookedTickets[k].passengers == []
  {
    PassengersZero(train.bookedTickets, ExactPair(fromStation, toStation));
  }

  /** Adding a ticket for any other (from, to) pair, overlapping or not, leaves
      availability unchanged; one for the same pair lowers it by its passengers. */
  lemma AvailableSeatsIgnoresOtherPairs(train: Train, k: nat, t: Ticket, fromStation: Station, toStation: Station)
    requires k <= |train.bookedTickets|
    ensures var ts := train.bookedTickets;
      var more := train.(bookedTickets := ts[..k] + [t] + ts[k..]);
      AvailableSeats(more, fromStation, toStation)
        == AvailableSeats(train, fromStation, toStation)
           - (if t.fromStation == fromStation && t.toStation == toStation then |t.passengers| else 0)
  {
    PassengersInsert(train.bookedTickets, k, t, ExactPair(fromStation, toStation));
  }

  // --------------------------------------- calculatePeopleBoardingAtAStation

  /** Passengers whose ticket starts at `station`. */
  function BoardingAt(train: Train, station: Station): nat
  {
    Passengers(train.bookedTickets, StartsAt(station))
  }

  method CalculatePeopleBoardingAtAStation(repo: seq<Train>, trainId: int, station: Station)
    returns (r: Result<int>)
    ensures FindById(repo, trainId).None? ==> r == Err(TrainNotFound)
    ensures FindById(repo, trainId).Some? && !PassesThrough(FindById(repo, trainId).value, station) ==>
      r == Err(StationNotServed)
    ensures FindById(repo, trainId).Some? && PassesThrough(FindById(repo, trainId).value, station) ==>
      r == Ok(BoardingAt(FindById(repo, trainId).value, station))
  {
    var found := FindById(repo, trainId);
    if found.None? {
      return Err(TrainNotFound);
    }
    var train := found.value;
    var routeArr := Split(train.route);
    if station.name !in routeArr {
      return Err(StationNotServed);
    }
    var tickets := train.bookedTickets;
    var boarding := 0;
    for i := 0 to |tickets|
      invariant boarding == Passengers(tickets[..i], StartsAt(station))
    {
      assert tickets[..i + 1][..i] == tickets[..i];
      if tickets[i].fromStation == station {
        boarding := boarding + |tickets[i].passengers|;
      }
    }
    assert tickets[..|tickets|] == tickets;
    return Ok(boarding);
  }

  /** The boarding count is zero exactly when every ticket starting at the
      station is empty, in particular when none starts there. */
  lemma BoardingZero(train: Train, station: Station)
    ensures BoardingAt(train, station) == 0 <==>
      forall k :: 0 <= k < |train.bookedTickets| && train.bookedTickets[k].fromStation == station ==>
        train.bookedTickets[k].passengers == []
  {
    PassengersZero(train.bookedTickets, StartsAt(station));
  }

  /** On a train built by `addTrain`, the route test accepts exactly the
      stations of the list it was built from. */
  lemma {:induction false} PassesThroughBuiltRoute(train: Train, stations: seq<Station>, station: Station)
    requires Split(train.route) == RouteAsRead(stations)
    ensures PassesThrough(train, station) <==> station in stations
    ensures PassingTime(train, station).Some? <==> station in stations
  {
  }

  // ----------------------------------------- calculateOldestPersonTravelling

  function Max(a: int, b: int): int
  {
    if a < b then b else a
  }

  /** The running maximum of `floor` and every age in `ps`. */
  function OldestAmong(ps: seq<Passenger>, floor: int): int
  {
    if ps == [] then floor else Max(OldestAmong(ps[..|ps| - 1], floor), ps[|ps| - 1].age)
  }

  /** The oldest age over all tickets, 0 standing for nobody. */
  function OldestAge(ts: seq<Ticket>): int
  {
    if ts == [] then 0 else OldestAmong(ts[|ts| - 1].passengers, OldestAge(ts[..|ts| - 1]))
  }

  method CalculateOldestPersonTravelling(repo: seq<Train>, trainId: int) returns (r: Result<int>)
    ensures FindById(repo, trainId).None? ==> r == Err(TrainNotFound)
    ensures FindById(repo, trainId).Some? ==> r == Ok(OldestAge(FindById(repo, trainId).value.bookedTickets))
  {
    var found := FindById(repo, trainId);
    if found.None? {
      return Err(TrainNotFound);
    }
    var tickets := found.value.bookedTickets;
    if |tickets| == 0 {
      return Ok(0);
    }
    var oldestAge := 0;
    for i := 0 to |tickets|
      invariant oldestAge == OldestAge(tickets[..i])
    {
      assert tickets[..i + 1][..i] == tickets[..i];
      var passengers := tickets[i].passengers;
      for j := 0 to |passengers|
        invariant oldestAge == OldestAmong(passengers[..j], OldestAge(tickets[..i]))
      {
        assert passengers[..j + 1][..j] == passengers[..j];
        if passengers[j].age > oldestAge {
          oldestAge := passengers[j].age;
        }
      }
      assert passengers[..|passengers|] == passengers;
    }
    assert tickets[..|tickets|] == tickets;
    return Ok(oldestAge);
  }

  lemma {:induction false} OldestAmongBounds(ps: seq<Passenger>, floor: int)
    ensures OldestAmong(ps, floor) >= floor
    ensures forall j :: 0 <= j < |ps| ==> ps[j].age <= OldestAmong(ps, floor)
    ensures OldestAmong(ps, floor) == floor || exists j :: 0 <= j < |ps| && ps[j].age == OldestAmong(ps, floor)
    decreases |ps|
  {
    if ps != [] {
      var n := |ps|;
      OldestAmongBounds(ps[..n - 1], floor);
      assert forall j :: 0 <= j < n - 1 ==> ps[..n - 1][j] == ps[j];
    }
  }

  /** The oldest age is at least 0 and at least every passenger's age, and it
      is 0 or the age of some passenger. */
  lemma {:induction false} OldestAgeBounds(ts: seq<Ticket>)
    ensures OldestAge(ts) >= 0
    ensures forall k, j :: 0 <= k < |ts| && 0 <= j < |ts[k].passengers| ==>
      ts[k].passengers[j].age <= OldestAge(ts)
    ensures OldestAge(ts) == 0 ||
      exists k, j :: 0 <= k < |ts| && 0 <= j < |ts[k].passengers| && ts[k].passengers[j].age == OldestAge(ts)
    decreases |ts|
  {
    if ts != [] {
      var n := |ts|;
      var prefix := ts[..n - 1];
      OldestAgeBounds(prefix);
      OldestAmongBounds(ts[n - 1].passengers, OldestAge(prefix));
      assert forall k :: 0 <= k < n - 1 ==> prefix[k] == ts[k];
      if OldestAge(ts) != OldestAge(prefix) {
        var j :| 0 <= j < |ts[n - 1].passengers| && ts[n - 1].passengers[j].age == OldestAge(ts);
      } else if OldestAge(prefix) != 0 {
        var k, j :| 0 <= k < |prefix| && 0 <= j < |prefix[k].passengers| &&
          prefix[k].passengers[j].age == OldestAge(prefix);
        assert ts[k].passengers[j].age == OldestAge(ts);
      }
    }
  }

  /** Nobody travelling, whether there are no tickets or only empty ones, gives 0. */
  lemma {:induction false} OldestAgeOfNobody(ts: seq<Ticket>)
    requires forall k :: 0 <= k < |ts| ==> ts[k].passengers == []
    ensures OldestAge(ts) == 0
  {
    OldestAgeBounds(ts);
  }

  // ------------------------------------------------- trainsBetweenAGivenTime

  /** When the train passes `station`: departure plus one hour per position
      of the station's first occurrence in the route, if it is on the route. */
  function PassingTime(train: Train, station: Station): (r: Option<TimeOfDay>)
    ensures r.Some? <==> PassesThrough(train, station)
    ensures r.Some? ==>
      var stops := Split(train.route);
      exists i: nat :: i < |stops| && stops[i] == station.name && (forall j :: 0 <= j < i ==> stops[j] != station.name) &&
        r.value == PlusHours(train.departureTime, i)
  {
    var stops := Split(train.route);
    if station.name in stops then Some(PlusHours(train.departureTime, IndexOf(stops, station.name)))
    else None
  }

  /** The train passes `station` strictly after `startTime` and strictly
      before `endTime`. */
  predicate PassesWithin(train: Train, station: Station, startTime: TimeOfDay, endTime: TimeOfDay)
  {
    var t := PassingTime(train, station);
    t.Some? && startTime < t.value < endTime
  }

  /** The test the time-window query applies to each train. */
  function InWindow(station: Station, startTime: TimeOfDay, endTime: TimeOfDay): Train -> bool
  {
    train => PassesWithin(train, station, startTime, endTime)
  }

  /** The ids of the trains `keep` accepts, in store order. */
  function SelectedIds(trains: seq<Train>, keep: Train -> bool): seq<int>
  {
    if trains == [] then []
    else
      var last := trains[|trains| - 1];
      SelectedIds(trains[..|trains| - 1], keep) + (if keep(last) then [last.trainId] else [])
  }

  /** The positions, in the store, of the trains `keep` accepts. */
  function SelectedPositions(trains: seq<Train>, keep: Train -> bool): seq<nat>
  {
    if trains == [] then []
    else SelectedPositions(trains[..|trains| - 1], keep) + (if keep(trains[|trains| - 1]) then [|trains| - 1] else [])
  }

  /** The ids of the trains that pass `station` within the window, in store order. */
  function TrainsWithin(trains: seq<Train>, station: Station, startTime: TimeOfDay, endTime: TimeOfDay): seq<int>
  {
    SelectedIds(trains, InWindow(station, startTime, endTime))
  }

  method TrainsBetweenAGivenTime(repo: seq<Train>, station: Station, startTime: TimeOfDay, endTime: TimeOfDay)
    returns (trainIdList: seq<int>)
    ensures trainIdList == TrainsWithin(repo, station, startTime, endTime)
  {
    trainIdList := [];
    for i := 0 to |repo|
      invariant trainIdList == TrainsWithin(repo[..i], station, startTime, endTime)
    {
      assert repo[..i + 1][..i] == repo[..i];
      var train := repo[i];
      var routeArr := Split(train.route);
      if station.name in routeArr {
        var index := IndexOf(routeArr, station.name);
        var timeOfPassing := PlusHours(train.departureTime, index);
        if startTime < timeOfPassing && timeOfPassing < endTime {
          trainIdList := trainIdList + [train.trainId];
        }
      }
    }
    assert repo[..|repo|] == repo;
  }

  /** Each selected position names a train of the store, and the selected ids
      are the ids of the trains at those positions. */
  lemma {:induction false} SelectedIdsAtPositions(trains: seq<Train>, keep: Train -> bool)
    ensures var ids := SelectedIds(trains, keep);
      var pos := SelectedPositions(trains, keep);
      |ids| == |pos| &&
      forall j :: 0 <= j < |pos| ==> pos[j] < |trains| && ids[j] == trains[pos[j]].trainId
    decreases |trains|
  {
    if trains != [] {
      SelectedIdsAtPositions(trains[..|trains| - 1], keep);
    }
  }

  /** Selected positions strictly increase: store order is kept and no train
      is listed twice. */
  lemma {:induction false} SelectedPositionsIncreasing(trains: seq<Train>, keep: Train -> bool)
    ensures var pos := SelectedPositions(trains, keep);
      forall j1, j2 :: 0 <= j1 < j2 < |pos| ==> pos[j1] < pos[j2]
    decreases |trains|
  {
    if trains != [] {
      SelectedPositionsIncreasing(trains[..|trains| - 1], keep);
      SelectedIdsAtPositions(trains[..|trains| - 1], keep);
    }
  }

  /** A position is selected exactly when `keep` accepts the train there. */
  lemma {:induction false} SelectedPositionsExact(trains: seq<Train>, keep: Train -> bool)
    ensures var pos := SelectedPositions(trains, keep);
      forall k :: 0 <= k < |trains| ==> (k in pos <==> keep(trains[k]))
    decreases |trains|
  {
    if trains != [] {
      var n := |trains|;
      var prefix := trains[..n - 1];
      SelectedPositionsExact(prefix, keep);
      SelectedIdsAtPositions(prefix, keep);
      var pre := SelectedPositions(prefix, keep);
      var tail: seq<nat> := if keep(trains[n - 1]) then [n - 1] else [];
      assert SelectedPositions(trains, keep) == pre + tail;
      forall k | 0 <= k < n
        ensures k in pre + tail <==> keep(trains[k])
      {
        if k < n - 1 {
          assert prefix[k] == trains[k];
          assert k !in tail;
        } else {
          assert k !in pre;
        }
      }
    }
  }

  /** The result of the time-window query lists, in store order and once each,
      the trains whose passing time at the station is strictly after
      `startTime` and strictly before `endTime`. A train passing exactly at
      either bound, or not passing the station at all, is left out. */
  lemma TrainsWithinIsOrderedSelection(trains: seq<Train>, station: Station, startTime: TimeOfDay, endTime: TimeOfDay)
    ensures var ids := TrainsWithin(trains, station, startTime, endTime);
      var pos := SelectedPositions(trains, InWindow(station, startTime, endTime));
      |ids| == |pos| &&
      (forall j :: 0 <= j < |pos| ==> pos[j] < |trains| && ids[j] == trains[pos[j]].trainId) &&
      (forall j1, j2 :: 0 <= j1 < j2 < |pos| ==> pos[j1] < pos[j2]) &&
      (forall k :: 0 <= k < |trains| ==>
        (k in pos <==> PassingTime(trains[k], station).Some? &&
                       startTime < PassingTime(trains[k], station).value < endTime))
  {
    var keep := InWindow(station, startTime, endTime);
    SelectedIdsAtPositions(trains, keep);
    SelectedPositionsIncreasing(trains, keep);
    SelectedPositionsExact(trains, keep);
  }

  /** An id is in the result exactly when some stored train with that id
      passes the station within the window. */
  lemma TrainsWithinMembership(trains: seq<Train>, station: Station, startTime: TimeOfDay, endTime: TimeOfDay, id: int)
    ensures id in TrainsWithin(trains, station, startTime, endTime) <==>
      exists k :: 0 <= k < |trains| && trains[k].trainId == id && PassesWithin(trains[k], station, startTime, endTime)
  {
    var keep := InWindow(station, startTime, endTime);
    SelectedIdsAtPositions(trains, keep);
    SelectedPositionsExact(trains, keep);
    var ids := TrainsWithin(trains, station, startTime, endTime);
    var pos := SelectedPositions(trains, keep);
    if id in ids {
      var j :| 0 <= j < |ids| && ids[j] == id;
      assert pos[j] in pos;
      assert keep(trains[pos[j]]);
    }
    if k :| 0 <= k < |trains| && trains[k].trainId == id && PassesWithin(trains[k], station, startTime, endTime) {
      assert keep(trains[k]);
      var j :| 0 <= j < |pos| && pos[j] == k;
      assert ids[j] == id;
    }
  }

  /** On a train built by `addTrain`, a station on the list is passed at the
      departure plus as many hours as its first position in the list, wrapping
      at midnight. */
  lemma PassingTimeOnBuiltRoute(train: Train, stations: seq<Station>, station: Station, i: nat)
    requires Split(train.route) == RouteAsRead(stations)
    requires i < |stations| && stations[i] == station
    requires forall j :: 0 <= j < i ==> stations[j] != station
    ensures PassingTime(train, station) == Some(PlusHours(train.departureTime, i))
  {
  }

  /** A station's first position in a list is its name's first position in
      the list of names. */
  lemma FirstPositionOfName(stations: seq<Station>, station: Station, i: nat)
    requires i < |stations| && stations[i] == station
    requires forall j :: 0 <= j < i ==> stations[j] != station
    ensures IndexOf(Names(stations), station.name) == i
  {
    var names := Names(stations);
    assert names[i] == station.name;
    assert stations[IndexOf(names, station.name)] == station;
  }

  // ---------------------------------------------------------------- example

  /** Route A, B, C, D leaving at 09:00 with 2 seats; one passenger aged 40
      books A to C and one aged 70 books B to D. */
  function ExampleTrain(): Train
  {
    Train(1, Join(["A", "B", "C", "D"]), 9 * 60, 2,
      [Ticket(Station("A"), Station("C"), [Passenger(40)]), Ticket(Station("B"), Station("D"), [Passenger(70)])])
  }

  /** A to C has one seat left, A to D (overlapping both tickets) still has
      two, one person boards at B, and the oldest traveller is 70. */
  lemma ExampleCounts()
    ensures AvailableSeats(ExampleTrain(), Station("A"), Station("C")) == 1
    ensures AvailableSeats(ExampleTrain(), Station("A"), Station("D")) == 2
    ensures BoardingAt(ExampleTrain(), Station("B")) == 1
    ensures OldestAge(ExampleTrain().bookedTickets) == 70
  {
    var ts := ExampleTrain().bookedTickets;
    assert ts[..1] == [ts[0]] && [ts[0]][..0] == [];
    assert Passengers(ts[..1], ExactPair(Station("A"), Station("C"))) == 1;
    assert Passengers(ts[..1], ExactPair(Station("A"), Station("D"))) == 0;
    assert Passengers(ts[..1], StartsAt(Station("B"))) == 0;
    assert [Passenger(40)][..0] == [] && [Passenger(70)][..0] == [];
    assert OldestAge(ts[..1]) == 40;
  }

  /** The train passes C at 11:00: inside the window 10:30 to 11:30, outside
      the window 11:00 to 11:30 that starts exactly then. */
  lemma ExampleTiming()
    ensures PassesWithin(ExampleTrain(), Station("C"), 10 * 60 + 30, 11 * 60 + 30)
    ensures !PassesWithin(ExampleTrain(), Station("C"), 11 * 60, 11 * 60 + 30)
  {
    RouteRoundTrip(["A", "B", "C", "D"]);
    assert Split(ExampleTrain().route) == ["A", "B", "C", "D"];
    assert IndexOf(["A", "B", "C", "D"], "C") == 2;
  }
}
