/** The gateway's bean validators, and the three different time checks the
    layers of the system apply to a new booking. */
module Validators {
  import opened Outcomes
  import Text

  /** The body of a create-booking request as the gateway sees it: the
      instants may be missing (`null`). */
  datatype CreateBookingDto = CreateBookingDto(itemId: int, start: Option<int>, end: Option<int>)

  /** `CheckDateValidator.isValid`: a missing instant is invalid, otherwise
      the window must start strictly before it ends. */
  function CheckDate(dto: CreateBookingDto): (valid: bool)
    ensures valid ==> dto.start.Some? && dto.end.Some?
    ensures valid ==> dto.start.value < dto.end.value
    ensures dto.start.Some? && dto.end.Some? && dto.start.value < dto.end.value ==> valid
  {
    match (dto.start, dto.end)
    case (Some(s), Some(e)) => s < e
    case _ => false
  }

  /** The verdict depends on the two instants alone, never on the item. */
  lemma CheckDateIgnoresItem(a: CreateBookingDto, b: CreateBookingDto)
    requires a.start == b.start && a.end == b.end
    ensures CheckDate(a) == CheckDate(b)
  {
  }

  /** An empty window (start equal to end) and an inverted one are both
      rejected by the gateway. */
  lemma CheckDateRejectsEmptyOrInverted(itemId: int, start: int, end: int)
    requires start >= end
    ensures !CheckDate(CreateBookingDto(itemId, Some(start), Some(end)))
  {
  }

  /** The time check of the earlier service snapshot: it rejects only a start
      strictly after the end (`isAfter`), so an empty window passes. */
  predicate ServiceTimeOk(start: int, end: int)
  {
    !(start > end)
  }

  /** The gateway's check is strictly stronger than the service's: every
      window it admits the service admits too, and the empty window is one
      the service admits but the gateway refuses. */
  lemma GatewayStricterThanService(dto: CreateBookingDto, t: int)
    ensures CheckDate(dto) ==> ServiceTimeOk(dto.start.value, dto.end.value)
    ensures ServiceTimeOk(t, t) && !CheckDate(CreateBookingDto(dto.itemId, Some(t), Some(t)))
  {
  }

  /** `CheckNotBlankIfNotNullValidator.isValid`: `null` passes; anything else
      must keep at least one character after `trim`. */
  function NotBlankIfNotNull(s: Option<string>): (valid: bool)
    ensures s.None? ==> valid
    ensures s == Some([]) ==> !valid
    ensures s.Some? ==> (valid <==> exists i :: 0 <= i < |s.value| && !Text.TrimmedAway(s.value[i]))
  {
    match s
    case None => true
    case Some(str) =>
      Text.TrimNonEmptyIff(str);
      |Text.Trim(str)| > 0
  }

  /** A string made only of characters up to U+0020 is rejected, and a string
      holding any character above U+0020 is accepted. */
  lemma NotBlankIfNotNullByContent(str: string)
    ensures (forall i :: 0 <= i < |str| ==> Text.TrimmedAway(str[i])) ==> !NotBlankIfNotNull(Some(str))
    ensures (exists i :: 0 <= i < |str| && str[i] as int > 0x20) ==> NotBlankIfNotNull(Some(str))
  {
  }
}
