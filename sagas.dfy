/** Values shared by the effects: the Option and Result wrappers, and references
    to the generator functions (sagas) that the effects store, fork or call. */
module Sagas {

  datatype Option<T> = None | Some(value: T)

  datatype Result<T, E> = Ok(value: T) | Err(error: E)

  /** A saga handed to an effect. The effects never look inside a saga: they only
      keep it in a definition, fork it or call it, so a name is enough. */
  datatype SagaRef =
    | Placeholder          // the builder's default saga, a generator that yields null once
    | Named(name: string)  // a saga supplied by the caller
}
