# Train service: route strings and booking queries

This project models `TrainService`, the one service class of a small railway
booking back end. A train has an ordered route of stations, a seat count, a
departure time and a list of booked tickets. Each ticket has a start station,
an end station and a list of passengers. The service does five things:

- **addTrain** joins the station names into one route string with the
  separator `", "`. The queries read the route back with Java's
  `String.split(", ")`.
- **calculateAvailableSeats** returns the seat count minus the passengers on
  tickets whose (from, to) pair is *exactly* the one asked about. Overlapping
  tickets are not counted, and no route check is made.
- **calculatePeopleBoardingAtAStation** fails with "Train is not passing from
  this station" when the station is not on the route. Otherwise it sums the
  passengers on the tickets that start there.
- **calculateOldestPersonTravelling** returns the largest passenger age, or 0
  when nobody travels.
- **trainsBetweenAGivenTime** walks every stored train. It lists the id of
  each train that passes the station strictly after the start time and
  strictly before the end time. The passing time is the departure time plus
  one hour per route position, and it wraps at midnight.

Files:

- `railway.dfy` (module `Railway`): the values the service reads (stations,
  passengers, tickets, trains), time of day, the `Result` of a query, and
  `findById` over the store.
- `route_text.dfy` (module `RouteText`): joining names into a route string,
  Java's `split(", ")` and `List.indexOf`, and the round trip between them.
- `train_service.dfy` (module `TrainService`): the five operations. Each
  operation is a method whose loop updates an accumulator, as the service's
  loops do. Each method is specified by a function over sequences, and lemmas
  state the properties of those functions.

The store is passed to every query as a sequence of trains in `findAll`
order. `findById` is the first train in that sequence with the id.

Decisions:

- `Station` is a Java enum whose source is not part of this model. It is
  modelled as `Station(name)`, where a name is non-empty and has no comma and
  no space, as a Java identifier has neither. The route is written with
  `toString()` and matched with `name()`. This model assumes they agree,
  which holds for an enum that does not override `toString`.
- A time of day is a whole number of minutes since midnight, below 1440.
  Seconds and nanoseconds are taken to be 0. `plusHours(h)` is
  `(t + 60 h) mod 1440`.
- The comment above `trainsBetweenAGivenTime` says both time bounds are
  included. The code uses `isAfter` and `isBefore`, which are strict. The
  model follows the code: a train passing exactly at either bound is left out.
- `String.split` is modelled as Java defines it. When the separator does not
  occur, the result is the whole string. Otherwise trailing empty pieces are
  dropped. So the route of a train with no stations reads back as `[""]`,
  which matches no station.

## Model

| member | source | states |
|---|---|---|
| `Railway.PlusHours` | src/main/java/com/driver/services/TrainService.java:154 | the result is a time of day that differs from departure + hours by whole days, and equals the sum when that sum is before midnight |
| `Railway.FindById` | src/main/java/com/driver/services/TrainService.java:68 | no train is found exactly when no stored train has the id; a found train has the id and is in the store |
| `RouteText.Join` | src/main/java/com/driver/services/TrainService.java:31-39 | the joined string starts with the first character of the first name and ends with the last character of the last name |
| `RouteText.Split` | src/main/java/com/driver/services/TrainService.java:91 | a string without the separator splits to itself alone; otherwise the result is the pieces cut at the separators with only trailing empty pieces dropped |
| `RouteText.PiecesSingle` | src/main/java/com/driver/services/TrainService.java:145 | a string is cut into a single piece exactly when it contains no separator |
| `RouteText.Pieces` | src/main/java/com/driver/services/TrainService.java:91 | cutting at separators yields at least one piece, and a single piece is the whole string |
| `RouteText.DropTrailingEmpty` | src/main/java/com/driver/services/TrainService.java:91 | the result is a prefix of the input that does not end in an empty string, and only empty strings were removed |
| `RouteText.IndexOf` | src/main/java/com/driver/services/TrainService.java:152 | -1 exactly when the name is absent, otherwise the first position holding it |
| `RouteText.PiecesRejoin` | src/main/java/com/driver/services/TrainService.java:145 | joining the pieces of any string with the separator rebuilds the string |
| `RouteText.PiecesOfJoin` | src/main/java/com/driver/services/TrainService.java:30-39 | cutting a joined list of comma-free names at its separators gives back the list |
| `RouteText.RouteRoundTrip` | src/main/java/com/driver/services/TrainService.java:30-39 | splitting the route string built from station names gives back exactly those names in order, and `[""]` for an empty route |
| `RouteText.JoinHasNoOuterSeparator` | src/main/java/com/driver/services/TrainService.java:31-39 | a route joined from one or more plain names neither starts nor ends with the separator |
| `TrainService.Names` | src/main/java/com/driver/services/TrainService.java:92 | a station is in the list exactly when its `name()` is among the names |
| `TrainService.BuildRoute` | src/main/java/com/driver/services/TrainService.java:30-39 | the string built by the loop is the names joined by the separator, and it splits back to the station names |
| `TrainService.AddTrain` | src/main/java/com/driver/services/TrainService.java:24-52 | the stored train has the assigned id, the given departure and seat count, no tickets, and the route string joined from the station names; that string splits back to the station list and has no leading or trailing separator |
| `TrainService.PassesThrough` | src/main/java/com/driver/services/TrainService.java:92 | the `anyMatch`/`noneMatch` route test agrees with `indexOf` finding the name, and accepts nothing on an empty route string |
| `TrainService.PassengersConcat` | src/main/java/com/driver/services/TrainService.java:72-76 | the passenger count over two ticket lists placed end to end is the sum of their counts |
| `TrainService.PassengersZero` | src/main/java/com/driver/services/TrainService.java:97-102 | a passenger count is zero exactly when every ticket it selects has no passengers |
| `TrainService.PassengersInsert` | src/main/java/com/driver/services/TrainService.java:72-76 | inserting a ticket anywhere raises the count by its passengers if it is selected, and leaves it unchanged otherwise |
| `TrainService.CalculateAvailableSeats` | src/main/java/com/driver/services/TrainService.java:54-79 | fails when no train has the id; otherwise returns the seat count minus the passengers on tickets with exactly the queried (from, to) pair |
| `TrainService.AvailableSeatsAtMostCapacity` | src/main/java/com/driver/services/TrainService.java:71-78 | availability never exceeds the seat count, and equals it exactly when no ticket with that exact pair carries a passenger |
| `TrainService.AvailableSeatsIgnoresOtherPairs` | src/main/java/com/driver/services/TrainService.java:72-76 | adding a ticket with any other pair, overlapping or not, leaves availability unchanged; one with the same pair lowers it by its passengers |
| `TrainService.CalculatePeopleBoardingAtAStation` | src/main/java/com/driver/services/TrainService.java:81-104 | fails when no train has the id, fails with "station not served" exactly when the station is not in the split route, and otherwise returns the passengers on tickets starting there |
| `TrainService.BoardingZero` | src/main/java/com/driver/services/TrainService.java:95-103 | the boarding count is 0 exactly when every ticket starting at the station has no passengers |
| `TrainService.PassesThroughBuiltRoute` | src/main/java/com/driver/services/TrainService.java:91-94 | on a train built by addTrain, the route check accepts exactly the stations in the list it was built from, and only those have a passing time |
| `TrainService.CalculateOldestPersonTravelling` | src/main/java/com/driver/services/TrainService.java:106-131 | fails when no train has the id; otherwise returns the oldest age over all tickets, 0 for no tickets |
| `TrainService.OldestAmongBounds` | src/main/java/com/driver/services/TrainService.java:120-124 | the running maximum is at least its start value and every age, and is the start value or some age |
| `TrainService.OldestAgeBounds` | src/main/java/com/driver/services/TrainService.java:114-130 | the oldest age is at least 0 and at least every passenger's age, and it is 0 or some passenger's age |
| `TrainService.OldestAgeOfNobody` | src/main/java/com/driver/services/TrainService.java:114-117 | with no tickets, or only tickets without passengers, the oldest age is 0 |
| `TrainService.PassingTime` | src/main/java/com/driver/services/TrainService.java:146-154 | a passing time exists exactly when the route test accepts the station, and it is departure plus the station's first position in the split route, in hours, wrapped at midnight |
| `TrainService.TrainsBetweenAGivenTime` | src/main/java/com/driver/services/TrainService.java:133-162 | the list built by the loop is the ids of the trains, in store order, that pass the station strictly inside the window |
| `TrainService.SelectedIdsAtPositions` | src/main/java/com/driver/services/TrainService.java:141-159 | every selected id is the id of the stored train at the matching selected position |
| `TrainService.SelectedPositionsIncreasing` | src/main/java/com/driver/services/TrainService.java:141-159 | selected positions strictly increase, so store order is kept and no train is listed twice |
| `TrainService.SelectedPositionsExact` | src/main/java/com/driver/services/TrainService.java:143-158 | a position is selected exactly when the test accepts the train stored there |
| `TrainService.TrainsWithinIsOrderedSelection` | src/main/java/com/driver/services/TrainService.java:143-158 | the result lists, in store order and once each, the trains on whose route the station is and whose passing time is strictly after the start and strictly before the end |
| `TrainService.TrainsWithinMembership` | src/main/java/com/driver/services/TrainService.java:143-158 | an id is in the result exactly when some stored train with that id passes within the window |
| `TrainService.PassingTimeOnBuiltRoute` | src/main/java/com/driver/services/TrainService.java:152-154 | on a train built by addTrain, a station on the list is passed at the departure plus its first position in hours, mod 24 hours |
| `TrainService.FirstPositionOfName` | src/main/java/com/driver/services/TrainService.java:152 | a station's first position in the list is the first position of its name among the names |
| `TrainService.ExampleCounts` | src/main/java/com/driver/services/TrainService.java:57-61 | on route A, B, C, D with 2 seats and tickets A to C (age 40) and B to D (age 70): A to C has 1 seat left, A to D still has 2, one person boards at B, and the oldest is 70 |
| `TrainService.ExampleTiming` | src/main/java/com/driver/services/TrainService.java:152-155 | that train, leaving at 09:00, passes C at 11:00: inside 10:30 to 11:30 and outside 11:00 to 11:30 |

## Left out

- The Spring wiring (`@Service`, `@Autowired`) and `trainRepository.save`. The store is a sequence of trains passed to each query.
- `TrainService.AddTrain`: the database assigns the train id; here it is the parameter `generatedId`. The method returns the train handed to the store rather than only its id.
- The request DTOs (`AddTrainEntryDto`, `SeatAvailabilityEntryDto`). Their fields are method parameters.
- `TrainService.AddTrain`: the `Train` class is not part of this model; a new train is taken to start with an empty ticket list.
- `java.time.LocalTime` itself. It is replaced by minutes since midnight, with seconds and nanoseconds taken as 0.
- Java exceptions and `Optional.get()`. Both failures are `Err` values of a `Result`.
- `TrainService.CalculateAvailableSeats`: Java's 32-bit `int` wrap-around in the seat and passenger sums is not modelled; integers are unbounded.
- `TrainService.CalculatePeopleBoardingAtAStation`: the same 32-bit wrap-around is not modelled for the boarding sum.
- The `Station` enum is not part of this model. Its names are assumed to be identifiers, and `toString()` is assumed to equal `name()`.
- Concurrent access to the store is not modelled; every query reads one snapshot.
