/** The closed set of task statuses (`TaskStatus`, a `str` enumeration). */
module Enums {
  import opened Wrappers

  datatype TaskStatus = Open | InProgress | Closed

  /** The set of labels the file backend accepts (`ALLOWED`). */
  const Allowed: set<string> := {"Open", "In Progress", "Closed"}

  /** The member's value; `str(status)` returns it too, and because the
      enumeration subclasses `str` a member compares equal to exactly this
      string. */
  function Label(s: TaskStatus): (r: string)
    ensures r in Allowed
    ensures |r| > 0
  {
    match s
    case Open => "Open"
    case InProgress => "In Progress"
    case Closed => "Closed"
  }

  /** `TaskStatus(text)`: the member whose value is `text`, or `None`
      where Python raises `ValueError`. */
  function FromLabel(text: string): (r: Option<TaskStatus>)
    ensures forall s :: r == Some(s) <==> Label(s) == text
    ensures r.Some? <==> text in Allowed
  {
    if text == "Open" then Some(Open)
    else if text == "In Progress" then Some(InProgress)
    else if text == "Closed" then Some(Closed)
    else None
  }

  /** The labels are pairwise distinct, so a label names one member. */
  lemma LabelInjective(a: TaskStatus, b: TaskStatus)
    ensures Label(a) == Label(b) <==> a == b
  {
  }

  /** Decoding the label of a status gives that status back. */
  lemma LabelRoundTrip(s: TaskStatus)
    ensures FromLabel(Label(s)) == Some(s)
  {
  }

  /** `status == "In Progress"` in the service: comparing a member with a
      plain string is comparing its label. */
  predicate EqualsText(s: TaskStatus, text: string)
  {
    Label(s) == text
  }

  lemma EqualsTextIsMembership(s: TaskStatus, text: string)
    ensures EqualsText(s, text) <==> FromLabel(text) == Some(s)
  {
  }
}
