/** Locations, shared by the call stack and the trace pipeline (common/common.hpp). */
module Common {
  /** loc_t, also bbl_t: image number and address. */
  datatype Loc = Loc(imgno: int, addr: nat)

  const NOIMG_SEQNO: int := -1
}
