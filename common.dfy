/** Values shared by the credential, token and middleware modules. */
module Common {

  /** One octet of a Node.js Buffer. */
  type byte = bv8

  /** An argument as the core inspects it: the code only ever asks `typeof x === 'string'`. */
  datatype Arg = Str(s: string) | NonString

  datatype Option<+T> = None | Some(value: T)

  /** How a call that may throw ended: with a value, or with an exception. */
  datatype Outcome<+T> = Returned(value: T) | Threw
}
