/** How a mapper operation ends. The C++ returns 0 or -ENOENT, and stops the
    daemon (assert / ceph_abort) when an invariant it relies on is broken;
    the model makes each of those stops an explicit outcome naming its cause. */
module Results {
  /** Why the mapper would abort the process. */
  datatype Fault =
    | NotOwned        // check(oid) failed: the object does not belong to this shard's hash range
    | Malformed       // a stored value did not decode as the expected record
    | EmptySnapSet    // get_snaps decoded a forward entry with no snap ids
    | AlreadyIndexed  // add_oid found a forward entry already present
    | SnapsMismatch   // update_snaps: the stored set differs from *old_snaps_check
    | WrongSnap       // the trim scan decoded a mapping for another snap id

  datatype Outcome<T> =
    | Ok(value: T)    // return 0
    | NotFound        // return -ENOENT
    | Fatal(fault: Fault)
}
