/** The `events` table: a calendar slot owned by exactly one user. */
module EventModel {

  type UserId = int

  /** Instants are compared only with each other, so an integer clock suffices. */
  type Time = int

  datatype EventStatus = Busy | Swappable | SwapPending

  /** A row of `events` without its primary key (the key is the map index in
      `Store.Tables.slots`). Every column is non-null, so every field is present. */
  datatype Event = Event(title: string, start: Time, end: Time, status: EventStatus, owner: UserId)

  /** The column default of `status`. */
  const DefaultStatus: EventStatus := Busy
}
