/**
 * The reservation endpoints: list, look up by customer name, create (table
 * availability check, then one-reservation-per-name check, then insert),
 * edit (overwrite without any re-check) and delete (remove, then report the
 * tables free at the deleted booking's timestamp).
 */
module Controllers {
  import opened Models
  import opened ViewModels
  import opened Repository
  import opened Availability

  /** Why a request was answered with 400 Bad Request. */
  datatype Rejection =
    | InvalidModel      // the request body failed validation (a timestamp not in the future)
    | TableUnavailable  // the table is not free at that exact timestamp
    | AlreadyReserved   // a reservation under that customer name exists
    | RequestInvalid    // the commit reported no affected rows

  /** The HTTP outcome of an endpoint, with the payload of a 200 OK. */
  datatype Response<T> = Ok(value: T) | NotFound | BadRequest(reason: Rejection)

  /** Some stored reservation carries exactly this customer name. */
  predicate HasReservationFor(rs: seq<Reservation>, customerName: string)
  {
    exists r :: r in rs && r.customerName == customerName
  }

  /** No two reservations share a table at the same exact timestamp. */
  predicate NoDoubleBooking(rs: seq<Reservation>)
  {
    forall i, j :: 0 <= i < j < |rs| ==>
      rs[i].dateTime != rs[j].dateTime || rs[i].tableNumber != rs[j].tableNumber
  }

  /** Every reservation names one of the restaurant's tables. */
  predicate TablesInRange(rs: seq<Reservation>)
  {
    forall i :: 0 <= i < |rs| ==> FirstTable <= rs[i].tableNumber < FirstTable + TableCount
  }

  /** At most one reservation per customer name. */
  predicate UniqueCustomerNames(rs: seq<Reservation>)
  {
    forall i, j :: 0 <= i < j < |rs| ==> rs[i].customerName != rs[j].customerName
  }

  predicate Consistent(rs: seq<Reservation>)
  {
    NoDoubleBooking(rs) && TablesInRange(rs) && UniqueCustomerNames(rs)
  }

  /** The delete endpoint's answer: the free tables, with the freed table appended when it is missing. */
  function WithFreedTable(available: seq<int>, freed: int): (r: seq<int>)
    ensures freed in r
    ensures forall x :: x in r <==> x in available || x == freed
    ensures |available| <= |r| <= |available| + 1 && r[..|available|] == available
    ensures Distinct(available) ==> Distinct(r)
  {
    if freed in available then available else available + [freed]
  }

  /**
   * An insert that passed both of create's checks keeps the store consistent:
   * the checks are exactly what the three invariants need of the new record.
   */
  lemma CreatePreservesConsistency(rs: seq<Reservation>, r: Reservation)
    requires Consistent(rs)
    requires r.tableNumber in AvailableTables(rs, r.dateTime)
    requires !HasReservationFor(rs, r.customerName)
    ensures Consistent(rs + [r])
  {
  }

  /** Removing a reservation keeps the store consistent. */
  lemma RemovePreservesConsistency(rs: seq<Reservation>, i: nat)
    requires i < |rs|
    requires Consistent(rs)
    ensures Consistent(RemoveAt(rs, i))
  {
  }

  /**
   * In a store without double bookings, deleting a reservation frees its
   * table at its timestamp by itself, so delete's defensive append is not needed.
   */
  lemma RemovalFreesTable(rs: seq<Reservation>, i: nat)
    requires i < |rs|
    requires NoDoubleBooking(rs)
    requires FirstTable <= rs[i].tableNumber < FirstTable + TableCount
    ensures rs[i].tableNumber in AvailableTables(RemoveAt(rs, i), rs[i].dateTime)
  {
  }

  /**
   * Edit re-checks neither availability nor the name: overwriting one record of a consistent store can
   * put it on a table already taken at that timestamp.
   */
  lemma EditCanDoubleBook()
    ensures var rs := [Reservation(1, "Alice", 100, 2, 5), Reservation(2, "Bob", 200, 4, 6)];
      FirstMatch(rs, CustomerNameIs("Bob")) == Some(1) &&
      Consistent(rs) && !NoDoubleBooking(rs[1 := FromView(2, ReservationView("Bob", 100, 4, 5))])
  {
    var rs := [Reservation(1, "Alice", 100, 2, 5), Reservation(2, "Bob", 200, 4, 6)];
    var edited := rs[1 := FromView(2, ReservationView("Bob", 100, 4, 5))];
    assert edited[0].dateTime == edited[1].dateTime && edited[0].tableNumber == edited[1].tableNumber;
  }

  /** Edit can also give a record a customer name another record already holds, or a table outside 1..15. */
  lemma EditCanDuplicateNameAndLeaveRange()
    ensures var rs := [Reservation(1, "Alice", 100, 2, 5), Reservation(2, "Bob", 200, 4, 6)];
      var edited := rs[1 := FromView(2, ReservationView("Alice", 300, 4, 99))];
      FirstMatch(rs, CustomerNameIs("Bob")) == Some(1) &&
      Consistent(rs) && !UniqueCustomerNames(edited) && !TablesInRange(edited)
  {
    var rs := [Reservation(1, "Alice", 100, 2, 5), Reservation(2, "Bob", 200, 4, 6)];
    var edited := rs[1 := FromView(2, ReservationView("Alice", 300, 4, 99))];
    assert edited[0].customerName == edited[1].customerName;
    assert edited[1].tableNumber == 99;
  }

  class ReservationController {
    const repository: ReservationStore

    constructor (repository: ReservationStore)
      ensures this.repository == repository
    {
      this.repository := repository;
    }

    /** Every stored reservation as a view (key dropped), in store order. */
    method GetAllReservations() returns (res: Response<seq<ReservationView>>)
      ensures res.Ok?
      ensures |res.value| == |repository.reservations|
      ensures forall i :: 0 <= i < |res.value| ==> res.value[i] == ToView(repository.reservations[i])
    {
      var reservations := repository.GetAllReservations();
      var results: seq<ReservationView> := [];
      for k := 0 to |reservations|
        invariant |results| == k
        invariant forall i :: 0 <= i < k ==> results[i] == ToView(reservations[i])
      {
        results := results + [ToView(reservations[k])];
      }
      return Ok(results);
    }

    /** The first reservation under `customerName`, or 404. */
    method GetReservationByCustomerName(customerName: string) returns (res: Response<Reservation>)
      ensures res.Ok? || res.NotFound?
      ensures res.NotFound? <==> !HasReservationFor(repository.reservations, customerName)
      ensures res.Ok? ==> Some(res.value) == Lookup(repository.reservations, CustomerNameIs(customerName))
    {
      var result := repository.GetReservationByCustomerName(customerName);
      if result.None? {
        return NotFound;
      }
      return Ok(result.value);
    }

    /** The tables free at exactly `dateTime`, computed from every stored reservation. */
    method GetAvailableTables(dateTime: int) returns (tables: seq<int>)
      ensures tables == AvailableTables(repository.reservations, dateTime)
    {
      var reservations := repository.GetAllReservations();
      assert reservations == repository.reservations;
      tables := AvailableTables(reservations, dateTime);
    }

    /**
     * Create. `now` is the clock reading the validation uses, `key` the key
     * the database generates for the new row, and `affectedRows` what the
     * commit reports, which create ignores.
     */
    method AddReservation(vm: ReservationView, now: int, key: int, affectedRows: int)
      returns (res: Response<Reservation>)
      modifies repository
      ensures var rs := old(repository.reservations);
        if !IsFutureDate(vm.dateTime, now) then
          res == BadRequest(InvalidModel) && repository.reservations == rs
        else if vm.tableNumber !in AvailableTables(rs, vm.dateTime) then
          res == BadRequest(TableUnavailable) && repository.reservations == rs
        else if HasReservationFor(rs, vm.customerName) then
          res == BadRequest(AlreadyReserved) && repository.reservations == rs
        else
          res == Ok(FromView(key, vm)) && repository.reservations == rs + [FromView(key, vm)]
      ensures Consistent(old(repository.reservations)) ==> Consistent(repository.reservations)
    {
      if !IsFutureDate(vm.dateTime, now) {
        return BadRequest(InvalidModel);
      }
      var reservation := FromView(key, vm);
      var availableTables := GetAvailableTables(reservation.dateTime);
      if reservation.tableNumber !in availableTables {
        return BadRequest(TableUnavailable);
      }
      var existing := repository.GetReservationByCustomerName(vm.customerName);
      if existing.Some? {
        return BadRequest(AlreadyReserved);
      }
      if Consistent(repository.reservations) {
        CreatePreservesConsistency(repository.reservations, reservation);
      }
      repository.AddReservation(reservation);
      var committed := repository.SaveChanges(affectedRows);
      return Ok(reservation);
    }

    /**
     * Edit: overwrites name, timestamp, table and guests of the first
     * reservation under `customerName`, keeping its key, with no availability
     * or uniqueness check.
     */
    method EditReservationByCustomerName(customerName: string, vm: ReservationView, affectedRows: int)
      returns (res: Response<Reservation>)
      modifies repository
      ensures var rs := old(repository.reservations);
        match FirstMatch(rs, CustomerNameIs(customerName))
        case None =>
          res == NotFound && repository.reservations == rs
        case Some(i) =>
          repository.reservations == rs[i := FromView(rs[i].id, vm)] &&
          res == (if affectedRows > 0 then Ok(FromView(rs[i].id, vm)) else BadRequest(RequestInvalid))
      ensures res.Ok? ==> ToView(res.value) == vm && res.value in repository.reservations
    {
      var found := repository.FindIndex(CustomerNameIs(customerName));
      if found.None? {
        return NotFound;
      }
      var i := found.value;
      var existing := repository.reservations[i];
      existing := existing.(customerName := vm.customerName, dateTime := vm.dateTime);
      existing := existing.(tableNumber := vm.tableNumber, numberOfGuests := vm.numberOfGuests);
      repository.reservations := repository.reservations[i := existing];
      var committed := repository.SaveChanges(affectedRows);
      assert repository.reservations[i] == existing;
      if committed {
        return Ok(existing);
      }
      return BadRequest(RequestInvalid);
    }

    /**
     * Delete: removes the first reservation under `customerName` and, when the
     * commit succeeds, answers with the tables free at its timestamp, the
     * freed table always among them.
     */
    method DeleteReservationByCustomerName(customerName: string, affectedRows: int)
      returns (res: Response<seq<int>>)
      modifies repository
      ensures var rs := old(repository.reservations);
        match FirstMatch(rs, CustomerNameIs(customerName))
        case None =>
          res == NotFound && repository.reservations == rs
        case Some(i) =>
          repository.reservations == RemoveAt(rs, i) &&
          res == (if affectedRows > 0
                  then Ok(WithFreedTable(AvailableTables(repository.reservations, rs[i].dateTime), rs[i].tableNumber))
                  else BadRequest(RequestInvalid))
      ensures Consistent(old(repository.reservations)) ==> Consistent(repository.reservations)
    {
      var existing := repository.GetReservationByCustomerName(customerName);
      if existing.None? {
        return NotFound;
      }
      ghost var i := FirstMatch(repository.reservations, CustomerNameIs(customerName)).value;
      if Consistent(repository.reservations) {
        RemovePreservesConsistency(repository.reservations, i);
      }
      var deletedTableNumber := existing.value.tableNumber;
      repository.DeleteReservation(existing.value);
      var committed := repository.SaveChanges(affectedRows);
      if committed {
        var reservationDateTime := existing.value.dateTime;
        var availableTables := GetAvailableTables(reservationDateTime);
        if deletedTableNumber !in availableTables {
          availableTables := availableTables + [deletedTableNumber];
        }
        return Ok(availableTables);
      }
      return BadRequest(RequestInvalid);
    }
  }
}
