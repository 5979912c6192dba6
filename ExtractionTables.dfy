/** The fixed tables of the variable extractor: the regular-expression patterns
    in the order they are tried, the variables a missing value is suggested
    for, and the follow-up question of each variable. */
module ExtractionTables {
  import opened JsValues

  /** A pattern's value: a constant, or `parseInt(match[1])`. */
  datatype PatternValue = Fixed(v: JsValue) | ParsedGroup

  datatype Pattern = Pattern(regex: string, variable: string, value: PatternValue, confidence: real)

  /** The pattern table, in the order the patterns are tried. */
  const Patterns: seq<Pattern> := [
    Pattern("(?:was|is|has been|have been|did)\\s+(?:an?\\s+)?(?:written\\s+)?offer\\s+(?:made|sent|given|provided)",
            "offer_made", Fixed(JBool(true)), 0.9),
    Pattern("(?:no|not|never|didn't|wasn't|hasn't)\\s+(?:receive|get|made|send)\\s+(?:an?\\s+)?offer",
            "offer_made", Fixed(JBool(false)), 0.8),
    Pattern("governor\\s+(?:accepted|agreed|approved|accepted)",
            "governor_accepted", Fixed(JBool(true)), 0.9),
    Pattern("governor\\s+(?:rejected|declined|refused|denied)",
            "governor_accepted", Fixed(JBool(false)), 0.9),
    Pattern("certificate\\s+(?:was|has been|is)\\s+(?:filed|submitted|lodged)",
            "certificate_filed", Fixed(JBool(true)), 0.9),
    Pattern("certificate\\s+(?:wasn't|was not|hasn't been|not)\\s+(?:filed|submitted)",
            "certificate_filed", Fixed(JBool(false)), 0.9),
    Pattern("duplicate\\s+(?:was|has been|is)\\s+(?:recorded|filed|registered)",
            "duplicate_recorded", Fixed(JBool(true)), 0.9),
    Pattern("duplicate\\s+(?:wasn't|was not|hasn't been|not)\\s+(?:recorded|filed|registered)",
            "duplicate_recorded", Fixed(JBool(false)), 0.9),
    Pattern("(?:federal|state)\\s+government\\s+(?:sent|made|provided)",
            "federal_offer", Fixed(JBool(true)), 0.8),
    Pattern("(?:within|before|after)\\s+(\\d+)\\s+days?",
            "time_limit_days", ParsedGroup, 0.8),
    Pattern("written\\s+(?:notice|notification|offer|request)",
            "written_notice", Fixed(JBool(true)), 0.7),
    Pattern("(?:oral|verbal|spoken)\\s+(?:notice|notification|offer|request)",
            "written_notice", Fixed(JBool(false)), 0.7),
    Pattern("land\\s+(?:was|is|has been)\\s+(?:retroceded|transferred|returned)",
            "retrocession_completed", Fixed(JBool(true)), 0.8),
    Pattern("(?:before|prior to)\\s+(?:statehood|becoming a state)",
            "before_statehood", Fixed(JBool(true)), 0.8),
    Pattern("(?:after|following)\\s+(?:statehood|becoming a state)",
            "before_statehood", Fixed(JBool(false)), 0.8)
  ]
  /** The variables a missing value is suggested for, in suggestion order. */
  const CommonVariables: seq<string> := [
    "offer_made", "governor_accepted", "certificate_filed", "duplicate_recorded",
    "written_notice", "federal_offer", "retrocession_completed", "before_statehood"
  ]
  /** The question asked for each variable that has one. */
  const QuestionTemplates: map<string, string> := map[
    "offer_made" := "Was a formal offer made by the federal government?",
    "governor_accepted" := "Did the governor accept the offer?",
    "certificate_filed" := "Was a certificate filed with the appropriate authority?",
    "duplicate_recorded" := "Was a duplicate copy recorded?",
    "written_notice" := "Was the notice provided in writing?",
    "federal_offer" := "Did the offer come from the federal government?",
    "retrocession_completed" := "Has the retrocession been completed?",
    "before_statehood" := "Did this occur before statehood?",
    "time_limit_days" := "What was the time limit in days?",
    "state_legislature_approved" := "Did the state legislature approve this action?"
  ]}
