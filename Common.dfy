/** Error kinds raised by the ShareIt services, and the Option/Result wrappers
    that replace Java's null, Optional and exceptions in this model. */
module Common {

  datatype Option<+T> = None | Some(value: T)

  /** The kind of stored record a NotFoundException names. */
  datatype Entity = UserEntity | ItemEntity | BookingEntity | RequestEntity

  /** One constructor per exception class the services throw. */
  datatype Error =
    | NotFound(entity: Entity)
    | IncorrectOwner
    | ItemNotAvailable
    | BookYourOwnItem
    | ChangeBookingStatus
    | UnsupportedStatus(state: string)
    | CommentingDenied
      // PageRequest.of rejects a size below one (and from / 0 throws first)
    | IllegalArgument
      // deleteById of Spring Data JPA 2 on an id with no row
      // (EmptyResultDataAccessException)
    | EmptyResult

  datatype Result<+T> = Ok(value: T) | Err(error: Error)
}
