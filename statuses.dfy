/**
 * The atom status bitmask. JavaScript's `|`, `&` and `~` work on 32-bit
 * integers, so a status is a `bv32`. The flag values stand for the global
 * `ATOM_STATUSES` table, which is not part of this model; they are one
 * distinct bit each, ordered by precedence as the background colour uses them
 * (conflict > preview > selected > hover), with `TODO` the default bit.
 */
module Statuses {

  type Mask = bv32

  const TODO: Mask := 1
  const HOVER: Mask := 2
  const SELECTED: Mask := 4
  const PREVIEW: Mask := 8
  const CONFLICT: Mask := 16
  const MISSING: Mask := 32

  predicate Has(status: Mask, flag: Mask) {
    status & flag != 0
  }

  /** `status |= flag`: every bit of `flag` is set, every other bit is kept. */
  function Add(status: Mask, flag: Mask): (r: Mask)
    ensures r & flag == flag
    ensures r & !flag == status & !flag
  {
    status | flag
  }

  /** `status &= ~flag`: every bit of `flag` is cleared, every other bit is kept. */
  function Remove(status: Mask, flag: Mask): (r: Mask)
    ensures r & flag == 0
    ensures r & !flag == status & !flag
  {
    status & !flag
  }

  /** `select` after `deselect` or `deselect` after `select` on a one-bit flag. */
  function Toggle(status: Mask, flag: Mask): (r: Mask)
    requires flag == HOVER || flag == SELECTED
    ensures Has(r, flag) <==> !Has(status, flag)
    ensures r & !flag == status & !flag
  {
    if Has(status, flag) then Remove(status, flag) else Add(status, flag)
  }

  /** Adding or removing the same flags a second time changes nothing. */
  lemma Idempotent(status: Mask, flag: Mask)
    ensures Add(Add(status, flag), flag) == Add(status, flag)
    ensures Remove(Remove(status, flag), flag) == Remove(status, flag)
  {
  }

  /** Removing flags just added gives what removing them from the start gives. */
  lemma AddThenRemove(status: Mask, flag: Mask)
    ensures Remove(Add(status, flag), flag) == Remove(status, flag)
  {
  }

  /** One of the status flags, each a single bit. */
  predicate IsFlag(flag: Mask) {
    flag == TODO || flag == HOVER || flag == SELECTED || flag == PREVIEW || flag == CONFLICT || flag == MISSING
  }

  /** On a one-bit flag, `Add` and `Remove` decide exactly that bit. */
  lemma OneBit(status: Mask, flag: Mask)
    requires IsFlag(flag)
    ensures Has(Add(status, flag), flag) && !Has(Remove(status, flag), flag)
    ensures !Has(status, flag) ==> Remove(status, flag) == status
    ensures Has(status, flag) ==> Add(status, flag) == status
  {
    ClearedBits(status, flag);
    SetBits(status, flag);
  }

  /** Clearing bits the status does not hold leaves it as it is. */
  lemma ClearedBits(status: Mask, flag: Mask)
    ensures status & flag == 0 ==> status & !flag == status
  {
  }

  /** Setting a single bit the status already holds leaves it as it is. */
  lemma SetBits(status: Mask, flag: Mask)
    requires IsFlag(flag)
    ensures status & flag != 0 ==> status | flag == status
  {
  }

  /** Putting back a single bit the status held restores it. */
  lemma RestoredBit(status: Mask, flag: Mask)
    requires IsFlag(flag)
    ensures status & flag != 0 ==> (status & !flag) | flag == status
  {
  }

  /** Toggling a one-bit flag twice gives the status back. */
  lemma ToggleTwice(status: Mask, flag: Mask)
    requires flag == HOVER || flag == SELECTED
    ensures Toggle(Toggle(status, flag), flag) == status
  {
    OneBit(status, flag);
    if Has(status, flag) {
      RestoredBit(status, flag);
    } else {
      AddThenRemove(status, flag);
      ClearedBits(status, flag);
    }
  }
}
