/** The severity scale both services share. */
module Contracts {
  datatype Severity = Info | Low | Medium | High | Critical

  function SeverityOrder(s: Severity): nat {
    match s
    case Info => 0
    case Low => 1
    case Medium => 2
    case High => 3
    case Critical => 4
  }

  lemma SeverityOrderIsInjective(a: Severity, b: Severity)
    requires SeverityOrder(a) == SeverityOrder(b)
    ensures a == b
  {
  }
}
