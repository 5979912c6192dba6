/** The fixed wording of the explanations `analyzeStatute` writes. */
module AnalyzeTexts {
  const AppliesPrefix: string := "This statute applies to your scenario. "
  const AppliesSuffix: string := " rules matched."
  const PartialPrefix: string := "This statute partially matches your scenario ("
  const PartialSuffix: string := "% of variables provided). Additional information needed."
  const DoesNotApply: string := "This statute does not appear to apply to your scenario based on the provided information."
}
