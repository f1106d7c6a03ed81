/**
 * The REST validator for DHCP server ranges (opsplugins/DHCPSrv_Range.py):
 * checks the start address, then the end address when present, then the
 * lease duration when present, and rejects at the first check that fails.
 *
 * IP address syntax is decided by a library predicate outside this model; it
 * is a parameter here (`isValidIp`).
 */
module RangeValidator {
  import opened Wrappers

  /**
   * The columns of a DHCP server range row the validator reads: the start
   * address, and the end address and lease duration as None when the row has
   * no such column.
   */
  datatype RangeRow = RangeRow(startIpAddress: string, endIpAddress: Option<string>, leaseDuration: Option<int>)

  /** Accepted, or a ValidationError (verification failed) carrying its details text. */
  datatype Verdict = Accepted | Rejected(details: string)

  const MaxLeaseDuration := 65535

  /** A lease duration is valid when it is not 1 and not above 65535. */
  function IsValidLeaseDuration(duration: int): (ok: bool)
    ensures ok <==> duration <= 0 || 2 <= duration <= MaxLeaseDuration
    ensures duration == 0 ==> ok
  {
    !(duration == 1 || duration > MaxLeaseDuration)
  }

  /** The details text for an address that fails the syntax check. */
  function InvalidAddressDetails(address: string): string {
    address + " is invalid."
  }

  /** The details text the source sets for a bad lease duration: only the first of its two literals. */
  const DurationDetailsAsWritten := "Lease duration should be 0 for infinite or"

  /** The details text the source evidently means: the whole sentence. */
  const DurationDetails := "Lease duration should be 0 for infinite or between 2-65535."

  /** Every present field passes its check. */
  predicate AllChecksPass(row: RangeRow, isValidIp: string -> bool) {
    && isValidIp(row.startIpAddress)
    && (row.endIpAddress.None? || isValidIp(row.endIpAddress.value))
    && (row.leaseDuration.None? || IsValidLeaseDuration(row.leaseDuration.value))
  }

  /** Both addresses pass but a present lease duration does not. */
  predicate OnlyDurationFails(row: RangeRow, isValidIp: string -> bool) {
    && isValidIp(row.startIpAddress)
    && (row.endIpAddress.None? || isValidIp(row.endIpAddress.value))
    && row.leaseDuration.Some? && !IsValidLeaseDuration(row.leaseDuration.value)
  }

  /**
   * The three checks in order (start address, end address when present,
   * lease duration when present); the first that fails decides the error.
   * `durationDetails` is the text of the duration error.
   */
  function Check(row: RangeRow, isValidIp: string -> bool, durationDetails: string): (v: Verdict)
    ensures v.Accepted? <==> AllChecksPass(row, isValidIp)
    ensures !isValidIp(row.startIpAddress) ==> v == Rejected(InvalidAddressDetails(row.startIpAddress))
    ensures isValidIp(row.startIpAddress) && row.endIpAddress.Some? && !isValidIp(row.endIpAddress.value) ==>
      v == Rejected(InvalidAddressDetails(row.endIpAddress.value))
    ensures OnlyDurationFails(row, isValidIp) ==> v == Rejected(durationDetails)
  {
    if !isValidIp(row.startIpAddress) then
      Rejected(InvalidAddressDetails(row.startIpAddress))
    else if row.endIpAddress.Some? && !isValidIp(row.endIpAddress.value) then
      Rejected(InvalidAddressDetails(row.endIpAddress.value))
    else if row.leaseDuration.Some? && !IsValidLeaseDuration(row.leaseDuration.value) then
      Rejected(durationDetails)
    else
      Accepted
  }

  /** validate_modification as the source has it: the duration error carries the truncated text. */
  function ValidateModificationAsWritten(row: RangeRow, isValidIp: string -> bool): (v: Verdict)
    ensures v.Accepted? <==> AllChecksPass(row, isValidIp)
    ensures OnlyDurationFails(row, isValidIp) ==> v == Rejected(DurationDetailsAsWritten)
  {
    Check(row, isValidIp, DurationDetailsAsWritten)
  }

  /** validate_modification with the duration error text the source evidently means. */
  function ValidateModification(row: RangeRow, isValidIp: string -> bool): (v: Verdict)
    ensures v.Accepted? <==> AllChecksPass(row, isValidIp)
    ensures OnlyDurationFails(row, isValidIp) ==> v == Rejected(DurationDetails)
    ensures !OnlyDurationFails(row, isValidIp) ==> v == ValidateModificationAsWritten(row, isValidIp)
  {
    Check(row, isValidIp, DurationDetails)
  }

  /**
   * The as-written duration error stops mid-sentence: its text is a proper
   * prefix of the intended one, missing the accepted range. A range row with
   * lease duration 1 shows it.
   */
  lemma DurationDetailsTruncated()
    ensures DurationDetails == DurationDetailsAsWritten + " between 2-65535."
    ensures var row := RangeRow("10.0.0.1", None, Some(1));
      var anyIp := (s: string) => true;
      && ValidateModificationAsWritten(row, anyIp) == Rejected(DurationDetailsAsWritten)
      && ValidateModification(row, anyIp) == Rejected(DurationDetails)
      && DurationDetailsAsWritten != DurationDetails
  {
    var row := RangeRow("10.0.0.1", None, Some(1));
    var anyIp := (s: string) => true;
    assert OnlyDurationFails(row, anyIp);
    assert |DurationDetailsAsWritten| < |DurationDetails|;
  }
}
