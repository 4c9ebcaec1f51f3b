/** The persisted entity of the reservation side of the application. */
module Models {

  /** What a first-match query yields: the record, or nothing (null in the store's API). */
  datatype Option<T> = None | Some(value: T)

  /**
   * One stored booking. `id` is the key the database generates on insert;
   * `dateTime` is a timestamp. The application compares it for equality in
   * the availability query and for order against the clock in the future-date
   * rule, so an integer (ticks) stands for it.
   */
  datatype Reservation = Reservation(
    id: int,
    customerName: string,
    dateTime: int,
    numberOfGuests: int,
    tableNumber: int)
}

/** The request and response shape of the reservation endpoints. */
module ViewModels {
  import opened Models

  /** The four client-supplied fields of a reservation; it carries no key. */
  datatype ReservationView = ReservationView(
    customerName: string,
    dateTime: int,
    numberOfGuests: int,
    tableNumber: int)

  /** The validation rule on `ReservationDateTime`: strictly later than the clock reading `now`. */
  predicate IsFutureDate(dateTime: int, now: int)
  {
    dateTime > now
  }

  /** The view of a stored reservation: every field but the key. */
  function ToView(r: Reservation): (v: ReservationView)
    ensures v.customerName == r.customerName && v.dateTime == r.dateTime
    ensures v.numberOfGuests == r.numberOfGuests && v.tableNumber == r.tableNumber
  {
    ReservationView(r.customerName, r.dateTime, r.numberOfGuests, r.tableNumber)
  }

  /** A new reservation built from a view, carrying the key `id`. */
  function FromView(id: int, v: ReservationView): (r: Reservation)
    ensures r.id == id
    ensures ToView(r) == v
  {
    Reservation(id, v.customerName, v.dateTime, v.numberOfGuests, v.tableNumber)
  }
}
