/** The return codes of the atcacert modules. */
module Status {

  datatype Status =
    | Success
    | Error
    | BadParams
    | BufferTooSmall
    | DecodingError
    | InvalidDate
    | UnexpectedElemSize
    | ElemMissing
    | ElemOutOfBounds
    | BadCert
    | WrongCertDef

  datatype Result<+T> = Ok(value: T) | Err(status: Status)
}
