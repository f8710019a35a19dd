/** The exceptions the migration tool throws, one constructor per message. */
module Errors {

  datatype MigrationError =
    | InvalidAccountId(value: string)   // "invalid account id: <value>"
    | DuplicateAccount(address: string) // "duplicate account: <address>"
    | InvalidStartKey                   // "Invalid startKey ..."
    | InvalidSpec                       // "invalid spec: ..." and property access on a malformed spec
    | FetchFailed(reason: string)       // any error raised by the account source
}
