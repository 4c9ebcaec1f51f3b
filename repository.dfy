/**
 * The reservation half of the data store: a list of reservations that can be
 * searched (first match), appended to and removed from, plus a commit that
 * reports whether any row was affected.
 */
module Repository {
  import opened Models

  /** The filters the store's first-match lookups apply. */
  datatype Query =
    | CustomerNameIs(name: string)
    | IdIs(id: int)
    | SameEntity(entity: Reservation)

  predicate Matches(r: Reservation, q: Query)
  {
    match q
    case CustomerNameIs(name) => r.customerName == name
    case IdIs(id) => r.id == id
    case SameEntity(e) => r == e
  }

  /** The position of the first reservation that satisfies `q`, if there is one. */
  function FirstMatch(rs: seq<Reservation>, q: Query): (r: Option<nat>)
    ensures r.Some? ==> r.value < |rs| && Matches(rs[r.value], q)
    ensures r.Some? ==> forall j :: 0 <= j < r.value ==> !Matches(rs[j], q)
    ensures r.None? <==> forall j :: 0 <= j < |rs| ==> !Matches(rs[j], q)
    decreases |rs|
  {
    if rs == [] then None
    else if Matches(rs[0], q) then Some(0)
    else match FirstMatch(rs[1..], q)
      case None => None
      case Some(i) => Some(i + 1)
  }

  /** The reservation at the first match, as FirstOrDefault returns it. */
  function Lookup(rs: seq<Reservation>, q: Query): (r: Option<Reservation>)
    ensures r.None? <==> forall j :: 0 <= j < |rs| ==> !Matches(rs[j], q)
    ensures r.Some? ==> exists i :: 0 <= i < |rs| && rs[i] == r.value && Matches(r.value, q) &&
                          forall j :: 0 <= j < i ==> !Matches(rs[j], q)
  {
    match FirstMatch(rs, q)
    case None => None
    case Some(i) => Some(rs[i])
  }

  /** The list with the element at position `i` taken out. */
  function RemoveAt(rs: seq<Reservation>, i: nat): seq<Reservation>
    requires i < |rs|
  {
    rs[..i] + rs[i + 1..]
  }

  class ReservationStore {
    /** The reservations the store holds, in store order. */
    var reservations: seq<Reservation>

    constructor (initial: seq<Reservation>)
      ensures reservations == initial
    {
      reservations := initial;
    }

    /** The commit: true exactly when the database reports more than zero affected rows. */
    method SaveChanges(affectedRows: int) returns (ok: bool)
      ensures ok <==> affectedRows > 0
    {
      ok := affectedRows > 0;
    }

    /** Adds one entity; everything stored before stays, in place. */
    method AddReservation(entity: Reservation)
      modifies this
      ensures reservations == old(reservations) + [entity]
      ensures |reservations| == |old(reservations)| + 1
    {
      reservations := reservations + [entity];
    }

    /** Removes the given entity, which the caller obtained from this store. */
    method DeleteReservation(entity: Reservation)
      requires entity in reservations
      modifies this
      ensures FirstMatch(old(reservations), SameEntity(entity)).Some?
      ensures var i := FirstMatch(old(reservations), SameEntity(entity)).value;
        old(reservations)[i] == entity && reservations == RemoveAt(old(reservations), i)
      ensures multiset(reservations) + multiset{entity} == multiset(old(reservations))
    {
      var found := FindIndex(SameEntity(entity));
      var i := found.value;
      assert reservations == reservations[..i] + [entity] + reservations[i + 1..];
      reservations := RemoveAt(reservations, i);
    }

    /** Every stored reservation, nothing added or dropped, in store order. */
    method GetAllReservations() returns (all: seq<Reservation>)
      ensures |all| == |reservations|
      ensures forall i :: 0 <= i < |all| ==> all[i] == reservations[i]
    {
      all := reservations;
    }

    /** The scan behind every first-match lookup. */
    method FindIndex(q: Query) returns (found: Option<nat>)
      ensures found == FirstMatch(reservations, q)
    {
      var i := 0;
      while i < |reservations|
        invariant 0 <= i <= |reservations|
        invariant forall j :: 0 <= j < i ==> !Matches(reservations[j], q)
      {
        if Matches(reservations[i], q) {
          return Some(i);
        }
        i := i + 1;
      }
      return None;
    }

    /** The first reservation whose key equals `reservationId`, or nothing. */
    method GetReservation(reservationId: int) returns (r: Option<Reservation>)
      ensures r == Lookup(reservations, IdIs(reservationId))
      ensures r.Some? ==> r.value in reservations && r.value.id == reservationId
      ensures r.None? <==> forall j :: 0 <= j < |reservations| ==> reservations[j].id != reservationId
    {
      var found := FindIndex(IdIs(reservationId));
      r := if found.Some? then Some(reservations[found.value]) else None;
    }

    /** The first reservation whose customer name is exactly `customerName`, or nothing. */
    method GetReservationByCustomerName(customerName: string) returns (r: Option<Reservation>)
      ensures r == Lookup(reservations, CustomerNameIs(customerName))
      ensures r.Some? ==> r.value in reservations && r.value.customerName == customerName
      ensures r.None? <==> forall j :: 0 <= j < |reservations| ==> reservations[j].customerName != customerName
    {
      var found := FindIndex(CustomerNameIs(customerName));
      r := if found.Some? then Some(reservations[found.value]) else None;
    }
  }
}
