/**
 * The two language profiles of a Woodcock-Johnson IV report (the English
 * battery and the Spanish Batería IV Woodcock-Muñoz): the constant bundles
 * that parameterise every stage of the parser.
 */
module Profiles {
  import opened Text

  /** The header line that opens the table of scores, in both languages. */
  const ScoresHeader: string := "TABLE OF SCORES"

  /** A line holding this text marks the report as Spanish. */
  const SpanishMarker: string := "Batería"

  /** The three observation sections, in scan order; their names become part of record keys. */
  const ObsSections: seq<string> := ["cognitive_obs", "achievement_obs", "qualitative_obs"]

  /** The recognised tests of each battery, in scan order. */
  const EnTests: seq<string> := ["VISUAL PROCESSING (Gv)", "Story Recall", "Visualization",
    "Numbers Reversed", "Picture Recognition", "Pair Cancellation", "Applied Problems"]
  const SpTests: seq<string> := ["Rememoración de cuentos", "Visualización", "Inversión de números",
    "Cancelación de pares", "Problemas aplicados"]

  /** The metric columns of the score table, in column order. */
  const EnMetrics: seq<string> := ["W", "AE", "RPI", "Proficiency", "SS 95% Band", "PR", "T"]
  const SpMetrics: seq<string> := ["W", "AE", "RPI", "SS 95% Band"]

  /** Proficiency levels that contain spaces and must stay one token (none in Spanish). */
  const EnProficiencyLevels: seq<string> := ["Very Advanced", "Average to Advanced",
    "Limited to Average", "Very Limited", "Extremely Limited"]
  const SpProficiencyLevels: seq<string> := []

  /** The prefix shared by a battery's section headers: where a section's scan ends. */
  const EnGenericHeader: string := "Woodcock-Johnson IV Tests"
  const SpGenericHeader: string := "Batería IV Woodcock-Muñoz Pruebas"

  /**
   * Exact header lines of the cognitive, achievement and qualitative sections,
   * written as the generic header followed by the rest of the line.
   */
  const EnCognitiveHeader: string := EnGenericHeader + " of Cognitive Abilities Test Session Observations"
  const EnAchievementHeader: string := EnGenericHeader + " of Achievement Form A and Extended Test Session Observations"
  const EnQualitativeHeader: string := EnGenericHeader + " of Achievement Form A and Extended Qualitative Observations"
  const SpCognitiveHeader: string := SpGenericHeader + " de habilidades cognitivas Test Session Observations"
  const SpAchievementHeader: string := SpGenericHeader + " de aprovechamiento Test Session Observations"
  const SpQualitativeHeader: string := SpGenericHeader + " de aprovechamiento Qualitative Observations"

  datatype Language = English | Spanish {

    /** The language tag written into the record and into every composite key. */
    function Name(): string {
      if English? then "English" else "Spanish"
    }

    function Tests(): seq<string> {
      if English? then EnTests else SpTests
    }

    function Metrics(): seq<string> {
      if English? then EnMetrics else SpMetrics
    }

    function ProficiencyLevels(): seq<string> {
      if English? then EnProficiencyLevels else SpProficiencyLevels
    }

    function GenericHeader(): string {
      if English? then EnGenericHeader else SpGenericHeader
    }

    function ObsHeaders(): seq<string> {
      if English? then [EnCognitiveHeader, EnAchievementHeader, EnQualitativeHeader]
      else [SpCognitiveHeader, SpAchievementHeader, SpQualitativeHeader]
    }
  }
}
