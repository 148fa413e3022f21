/** Errors as the set of sentinels an error chain wraps: `errors.Is(err, s)` is `s in err`. */
module Errors {
  datatype Option<+T> = None | Some(value: T) {
    predicate IsFailure() { None? }

    function PropagateFailure<U>(): Option<U>
      requires None?
    {
      None
    }

    function Extract(): T
      requires Some?
    {
      value
    }
  }

  datatype Sentinel =
    | KeyNotFound | PassportKeyNotFound | PassportKeyRequired | PassportKeyNameRequired
    | InvalidCekSize | KeyWrapperMissing | MissingAad | RandomFailed | WrapFailed | UnwrapFailed
    | EncryptFailed | DecryptFailed | KeyNameMismatch | AadMismatch | JsonSyntax
    | BadVersion | BadProvider | NoKeyName | BadContentAlg | BadWrapAlg
    | BadNonce | NoWrappedCek | NoCiphertext | NoAad | EmptyInput | BadKeyBuffer
    | ClientFailed | MultipleItems | DuplicateTitle | NotDirectory | FileInPath
    | Status(code: nat)

  type Error = set<Sentinel>

  datatype Result<+T> = Ok(value: T) | Err(error: Error)
}
