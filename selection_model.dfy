/**
 * A selection record: a generated article list belonging to a builder,
 * with its content type and the time it was last updated, stored in the
 * fixed-width timestamp format.
 */
module SelectionModel {
  import opened Wrappers
  import opened Timestamps

  class Selection {
    const id: string
    const builderId: int
    const contentType: string
    var updatedAt: Bytes

    constructor (id: string, builderId: int, contentType: string, updatedAt: Bytes)
      ensures this.id == id && this.builderId == builderId && this.contentType == contentType
      ensures this.updatedAt == updatedAt
    {
      this.id := id;
      this.builderId := builderId;
      this.contentType := contentType;
      this.updatedAt := updatedAt;
    }

    /** The stored update time as a date and time; None when the bytes are not a valid timestamp. */
    function UpdatedAtDt(): (r: Option<DateTime>)
      reads this
      ensures r.Some? ==> Valid(r.value) && Format(r.value) == updatedAt
    {
      Parse(updatedAt)
    }

    /** Stores `dt` formatted; reading the update time back gives `dt`. */
    method SetUpdatedAtDt(dt: DateTime)
      requires Valid(dt)
      modifies this`updatedAt
      ensures updatedAt == Format(dt) && |updatedAt| == 14 && AllDigits(updatedAt)
      ensures UpdatedAtDt() == Some(dt)
    {
      updatedAt := Format(dt);
      ParseFormat(dt);
    }

    /** Stores the current UTC time, which the caller passes in. */
    method SetUpdatedAtNow(utcNow: DateTime)
      requires Valid(utcNow)
      modifies this`updatedAt
      ensures updatedAt == Format(utcNow)
      ensures UpdatedAtDt() == Some(utcNow)
    {
      SetUpdatedAtDt(utcNow);
    }
  }
}
