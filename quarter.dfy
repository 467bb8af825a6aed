/** The quarters of a year and their numbering 1..4 (`QuarterEnum`). */
module CoreDate {
  import opened Wrappers

  datatype Quarter = Q1 | Q2 | Q3 | Q4 {

    /** The quarter's number, the `value` each constant is built with. */
    function Value(): (v: int)
      ensures 1 <= v <= 4
      ensures v == 1 <==> this == Q1
      ensures v == 2 <==> this == Q2
      ensures v == 3 <==> this == Q3
      ensures v == 4 <==> this == Q4
    {
      match this
      case Q1 => 1
      case Q2 => 2
      case Q3 => 3
      case Q4 => 4
    }
  }

  /** The quarter numbered `intValue`, or None (Java's `null`) for any other number. */
  function Of(intValue: int): (r: Option<Quarter>)
    ensures r.Some? <==> 1 <= intValue <= 4
    ensures r.Some? ==> r.value.Value() == intValue
  {
    match intValue
    case 1 => Some(Q1)
    case 2 => Some(Q2)
    case 3 => Some(Q3)
    case 4 => Some(Q4)
    case _ => None
  }

  /** Numbering is injective: two quarters with the same number are the same quarter. */
  lemma ValueInjective(p: Quarter, q: Quarter)
    ensures p.Value() == q.Value() ==> p == q
  {
  }

  /** Round trip from a quarter to its number and back. */
  lemma OfValue(q: Quarter)
    ensures Of(q.Value()) == Some(q)
  {
  }
}
