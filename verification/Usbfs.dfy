/** What bulk and isochronous transfers over usbfs have in common: error codes, statuses, and discarding URBs. */
module Usbfs {
  const LIBUSB_ERROR_IO := -1
  const LIBUSB_ERROR_NO_DEVICE := -4
  const LIBUSB_ERROR_NOT_FOUND := -5
  const LIBUSB_ERROR_BUSY := -6

  /** How a transfer ended, as its callback is told. */
  datatype TransferStatus = Completed | Error | TimedOut | Cancelled | Stall | NoDevice | Overflow

  /** Why the URBs of a transfer are still being reaped. */
  datatype ReapAction = Normal | SubmitFailed | Cancelled | CompletedEarly | Failing

  /** Indices from hi down to lo: the order in which URBs are discarded. */
  function Downward(hi: int, lo: int): (r: seq<int>)
    decreases hi - lo
  {
    if hi < lo then [] else [hi] + Downward(hi - 1, lo)
  }

  /** The error codes of the library's interface. */
  lemma ErrorCodes()
    ensures LIBUSB_ERROR_IO == -1 && LIBUSB_ERROR_NO_DEVICE == -4
    ensures LIBUSB_ERROR_NOT_FOUND == -5 && LIBUSB_ERROR_BUSY == -6
  {
  }

  lemma {:induction false} DownwardAt(hi: int, lo: int, k: nat)
    ensures |Downward(hi, lo)| == if hi < lo then 0 else hi - lo + 1
    ensures k < |Downward(hi, lo)| ==> Downward(hi, lo)[k] == hi - k
    decreases hi - lo
  {
    if hi >= lo {
      DownwardAt(hi - 1, lo, if k == 0 then 0 else k - 1);
    }
  }

  /** A loop of DISCARDURB calls. */
  method DiscardDown(hi: int, lo: int) returns (discarded: seq<int>)
    ensures discarded == Downward(hi, lo)
  {
    discarded := [];
    var j := hi;
    while j >= lo
      invariant discarded + Downward(j, lo) == Downward(hi, lo)
    {
      assert discarded + Downward(j, lo) == discarded + [j] + Downward(j - 1, lo);
      discarded := discarded + [j];
      j := j - 1;
    }
    assert discarded + [] == discarded;
  }
}
