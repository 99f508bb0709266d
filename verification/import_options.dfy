/** How an import may treat what is already there: the two options that `importArchive` takes. */
module ImportOptions {
  import opened Wrappers

  datatype Policy = Error | Skip | Replace | Merge | Update

  datatype Options = Options(overwrite: bool, onConflict: Option<Policy>) {
    /** The guard on existing live files looks at neither policy nor records: any policy at all lets the import pass. */
    predicate Guarded() {
      !overwrite && onConflict.None?
    }
    /** The import starts from the existing records instead of the archive alone. */
    predicate Merges() {
      !overwrite && onConflict.Some? && onConflict.value != Error
    }
  }
}
