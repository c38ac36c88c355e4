/** The closed vocabularies of `decision_records` as the live model declares them. Each column is a string
    in the database; a value no vocabulary ever named is an `Other…`. */
module DecisionVocabulary {
  datatype Outcome =
    | WIN | LOSS | BE | OPEN | ABSTAINED | ABANDONED | REJECTED | UNSIZED_FILL | SUBMITTING
    | OtherOutcome(text: string)

  datatype Code =
    | NO_REFERENCE_PRICE | DEGENERATE_STOP | ENTRY_DRIFT | THROUGH_STOP | NON_POSITIVE_SIZE
    | VENUE_DIRECTION_UNSUPPORTED | MIN_SIZE | PROTECTION_NOT_ACCEPTED | VENUE_ENDED_UNFILLED | KILL_SWITCH_ARMED
    | PROP_FIRM_TARGET_REACHED | PROP_FIRM_HALTED_DAILY_LOSS | PROP_FIRM_HALTED_MAX_DRAWDOWN | PROP_FIRM_HALTED
    | PROP_FIRM_WOULD_BREACH_DAILY_LOSS | PROP_FIRM_WOULD_BREACH_MAX_DRAWDOWN
    | BROKER_UNAVAILABLE | VENUE_TRANSPORT | VENUE_RAISED | UNCODED_LEGACY | UNCLASSIFIED
    | SUBMISSION_NOT_FOUND_AFTER_RESTART
    | OtherCode(text: string)

  datatype Decider = UNSET | ICT | RULE_ENGINE | OtherDecider(text: string)

  const DECISION_OUTCOMES: set<Outcome> :=
    {WIN, LOSS, BE, OPEN, ABSTAINED, ABANDONED, REJECTED, UNSIZED_FILL, SUBMITTING}

  const REJECTION_CODES: set<Code> := {
    NO_REFERENCE_PRICE, DEGENERATE_STOP, ENTRY_DRIFT, THROUGH_STOP, NON_POSITIVE_SIZE,
    VENUE_DIRECTION_UNSUPPORTED, MIN_SIZE, PROTECTION_NOT_ACCEPTED, VENUE_ENDED_UNFILLED, KILL_SWITCH_ARMED,
    PROP_FIRM_TARGET_REACHED, PROP_FIRM_HALTED_DAILY_LOSS, PROP_FIRM_HALTED_MAX_DRAWDOWN, PROP_FIRM_HALTED,
    PROP_FIRM_WOULD_BREACH_DAILY_LOSS, PROP_FIRM_WOULD_BREACH_MAX_DRAWDOWN,
    BROKER_UNAVAILABLE, VENUE_TRANSPORT, VENUE_RAISED, UNCODED_LEGACY, UNCLASSIFIED,
    SUBMISSION_NOT_FOUND_AFTER_RESTART
  }

  const DECIDED_BY_VALUES: set<Decider> := {UNSET, ICT, RULE_ENGINE}
}
