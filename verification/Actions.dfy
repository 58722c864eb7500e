/** The actions a device runs, as far as its control logic tells them apart. */
module Actions {
  /**
   Long actions are enroll, verify, identify and capture; clearing the storage is the
   short action that a suspended device still starts.
   */
  datatype Action = NoAction | Long | Short | ClearStorage
}
