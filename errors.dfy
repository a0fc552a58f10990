/** The ways decoding a CRLSet file can fail. */
module Errors {

  /**
   * The field being read when the input ran out; each one is a separate
   * "CRLSet truncated at ..." diagnostic.
   */
  datatype Stage =
    | HeaderLength   // "truncated at header length"
    | Header         // "truncated at header"
    | SpkiHash       // "truncated at SPKI hash"
    | SerialCount    // "truncated at serial count"
    | SerialLength   // "truncated at serial length"
    | Serial         // "truncated at serial"

  /** Why `dump` or `dumpSPKIs` reported failure. */
  datatype Failure =
    | Truncated(at: Stage)
    | HeaderUnparsable        // "Failed to parse header": the JSON decoder rejected the header bytes
    | CertificateUnreadable   // "Failed to read certificate"
    | CertificateUnparsable   // "Failed to parse certificate"
}
