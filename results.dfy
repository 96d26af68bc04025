/** The outcome of an operation that Python may end by raising an exception. */
module Results {

  /** The one exception the queues raise: `IndexError`, with its message. */
  datatype Error = IndexError(message: string)

  /** The message both queues attach to the `IndexError` of a pop on an empty deque. */
  const EMPTY_QUEUE_MESSAGE: string := "Queue is empty!"

  datatype Result<T> = Ok(value: T) | Err(error: Error)
}
