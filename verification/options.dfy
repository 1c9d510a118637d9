/** The "value or nothing" result that the ledger's lookups return
    (Python's `Block or None`). */
module Options {

  datatype Option<+T> = None | Some(value: T)

}
