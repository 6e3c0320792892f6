/** Every reason the archive guard refuses for, as `errors.ts` lists them. */
module Refusals {
  datatype Refusal =
    | ArchiveTooLarge
    | UnsupportedFormat
    | MalformedArchive
    | TooManyEntries
    | ExpansionRatioExceeded
    | UncompressedTooLarge
    | AbsolutePath
    | PathEscapesRoot
    | NonRegularEntry
    | UnsupportedCompression
    | DeclaredSizeMismatch
}
