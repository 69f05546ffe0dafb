/** The message identifiers the core shows; their texts are not modelled. */
module Messages {

  datatype MessageId =
    | Info002  // the CSV was output
    | Err002   // no destination folder is configured
    | Err003   // the configured destination folder path is not valid
    | Err999   // an unexpected error occurred
}
