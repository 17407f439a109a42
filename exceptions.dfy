/** The .NET exceptions that the modelled code can throw or let escape. */
module Exceptions {

  datatype Exception =
    /** `new ArgumentException("Specified size too small", "size")` in the RSA field conversion,
        or the argument check of `CopyWithPrivateKey` when the key does not match the certificate. */
    | ArgumentException(message: string, paramName: string)
    /** `new ArgumentNullException(nameof(configureOptions))`. */
    | ArgumentNullException(paramName: string)
    /** The cast of the PEM object to an RSA private CRT key fails. */
    | InvalidCastException
    /** The PEM stream held no object, so the cast yields null and the field access fails. */
    | NullReferenceException
    /** One of the two mounted files could not be read (absent, unreadable). */
    | IOException(file: string)
    /** The certificate file or the PEM key file could not be decoded. */
    | CryptographicException(file: string)
    /** `decimal` division by zero in `GetPrcentAbs`. */
    | DivideByZeroException
}
