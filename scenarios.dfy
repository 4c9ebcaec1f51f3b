/**
 * A worked example of the booking rules, stated as a client of the
 * controller: everything below follows from the controller's contracts alone.
 */
module Scenarios {
  import opened Models
  import opened ViewModels
  import opened Repository
  import opened Availability
  import opened Controllers

  method AliceAndBob()
  {
    var seven := 1000;      // the evening Alice booked
    var nextDay := 2000;    // the following evening
    var now := 0;
    var alice := Reservation(1, "Alice", seven, 2, 5);
    var store := new ReservationStore([alice]);
    var controller := new ReservationController(store);

    // Table 5 is taken at Alice's time, every other table is free; the next day all are free.
    var free := controller.GetAvailableTables(seven);
    assert IsBooked([alice], seven, 5);
    assert 5 !in free && 4 in free && 6 in free;
    AvailableWhenNothingBooked([alice], nextDay);

    // Bob cannot have table 5 at Alice's time.
    var res := controller.AddReservation(ReservationView("Bob", seven, 3, 5), now, 2, 1);
    assert res == BadRequest(TableUnavailable);

    // Bob can have table 5 the next evening, but only once.
    assert !IsBooked([alice], nextDay, 5);
    assert !HasReservationFor([alice], "Bob");
    res := controller.AddReservation(ReservationView("Bob", nextDay, 3, 5), now, 2, 1);
    assert res.Ok? && store.reservations == [alice, FromView(2, ReservationView("Bob", nextDay, 3, 5))];
    res := controller.AddReservation(ReservationView("Bob", nextDay, 3, 7), now, 3, 1);
    assert store.reservations[1] in store.reservations;
    assert res == BadRequest(AlreadyReserved);

    // Deleting Alice answers with a list that includes table 5.
    var freed := controller.DeleteReservationByCustomerName("Alice", 1);
    assert freed.Ok? && 5 in freed.value;
  }
}
