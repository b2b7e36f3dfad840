/** Go's `error` values as the library creates them with `errors.New`.
    A nil `error` is modelled as `None` of an `Option<Error>`. */
module Errors {

  datatype Error = Error(message: string)

  // The messages the containers return.
  const KeyNotFound := Error("key not found")
  const KeyNotFoundInMap := Error("key not found in map")
  const IndexOutOfBounds := Error("index out of bounds")
  const ElementNotFound := Error("element not found")
  const ElementNotFoundInSet := Error("element not found in set")
  const DequeIsEmpty := Error("deque is empty")
  const StackIsEmpty := Error("stack is empty")
  const QueueIsEmpty := Error("queue is empty")
}
