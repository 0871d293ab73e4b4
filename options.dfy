/** The optional value used wherever the TypeScript source returns `T | null`. */
module Options {

  datatype Option<+T> = None | Some(value: T) {

    /** The value, or `default` when there is none (TypeScript's `??`). */
    function OrElse(default: Option<T>): Option<T> {
      match this
      case Some(_) => this
      case None => default
    }
  }
}
