/** Whitelist membership (gas-report-filter.go:100-107). */
module Membership {

  import opened Report

  /** Some issue of the whitelist names exactly this file and this code. */
  predicate Listed(w: Whitelist, file: string, code: string) {
    exists i | 0 <= i < |w.issues| :: w.issues[i].file == file && w.issues[i].code == code
  }

  /** `isInWhitelist`: a linear scan that stops at the first issue matching
      both the file and the code. */
  method IsInWhitelist(w: Whitelist, file: string, code: string) returns (found: bool)
    ensures found <==> Listed(w, file, code)
    ensures |w.issues| == 0 ==> !found
  {
    for i := 0 to |w.issues|
      invariant forall j | 0 <= j < i :: !(w.issues[j].file == file && w.issues[j].code == code)
    {
      if w.issues[i].file == file && w.issues[i].code == code {
        return true;
      }
    }
    return false;
  }
}
