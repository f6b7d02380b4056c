/** The ways a repository call can reject. */
module StorageErrors {

  datatype StorageError =
    /** The database driver rejected the statement (connection lost, timeout,
        constraint violation); the text is the driver's message. */
    | Unavailable(reason: string)
    /** A stored metadata text that `JSON.parse` refuses. */
    | MalformedMetadata(text: string)
    /** A date argument `new Date` cannot read, so the day range is an
        Invalid Date. */
    | InvalidDate(date: string)
}
