/** What a handler sends back: a JSON body with status 200, or a status and a `{ message }`. */
module Responses {

  datatype Reply<T> = Ok(body: T) | Error(status: nat, message: string)

  function UserNotFound<T>(): Reply<T> {
    Error(404, "User not found")
  }

  function UserExists<T>(): Reply<T> {
    Error(400, "User already exists")
  }

  function InvalidCredentials<T>(): Reply<T> {
    Error(400, "Invalid credentials")
  }

  function ServerError<T>(): Reply<T> {
    Error(500, "Server error")
  }
}
