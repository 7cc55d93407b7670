/** The status codes (UEFI 2.10 appendix D) and the fallible results the crate uses. */
module Uefi {
  datatype Status =
    | InvalidParameter
    | BadBufferSize
    | OutOfResources
    | VolumeCorrupted
    | CompromisedData
    | DeviceError
    | NotFound
    | NoMapping
    | Unsupported
    | Other(code: nat)

  datatype Result<+T, +E> = Ok(value: T) | Err(error: E)

  datatype Option<+T> = None | Some(value: T)

  datatype Unit = Unit
}
