/** The records of src/models.rs. */
module Models {

  /** Operating-system caption and computer name, as WMIC reports them. */
  datatype SystemInfo = SystemInfo(osName: string, hostName: string)

  /**
   * One logical disk. The source keeps its size and free space as gigabytes
   * in `f64`; here they are the byte counts the gigabytes are computed from.
   */
  datatype DiskInfo = DiskInfo(name: string, totalBytes: nat, freeBytes: nat, percent: nat)
}
