/**
 * The colour rules of the analytics dashboard
 * (components/argument-dashboard.tsx:59-91): score bands for text and
 * progress bars, and the credibility rating's colour and icon.  Scores are
 * JavaScript numbers, modelled as reals.
 */
module Dashboard {
  /** `getRatingColor` (lines 59-63). */
  function RatingColor(score: real): string {
    if score >= 80.0 then "text-green-600 dark:text-port-400"
    else if score >= 60.0 then "text-yellow-600 dark:text-port-400"
    else "text-red-600 dark:text-port-400"
  }

  /** `getProgressColor` (lines 65-69). */
  function ProgressColor(score: real): string {
    if score >= 80.0 then "bg-green-600 dark:bg-port-400"
    else if score >= 60.0 then "bg-yellow-600 dark:bg-port-400"
    else "bg-red-600 dark:bg-port-400"
  }

  /** Both colour rules split the scores into the same bands: two scores share a text colour exactly when they share a bar colour. */
  lemma BandsAgree(score: real, score': real)
    ensures RatingColor(score) == RatingColor(score') <==> ProgressColor(score) == ProgressColor(score')
  {
  }

  /** The bands: green from 80, yellow from 60 up to 80, red below 60. */
  lemma RatingBands(score: real)
    ensures RatingColor(score) == "text-green-600 dark:text-port-400" <==> score >= 80.0
    ensures RatingColor(score) == "text-red-600 dark:text-port-400" <==> score < 60.0
  {
  }

  /** `getCredibilityColor` (lines 71-80). */
  function CredibilityColor(rating: string): string {
    match rating
    case "Rock Solid" => "text-green-600 dark:text-port-400"
    case "Mostly Solid" => "text-emerald-600 dark:text-port-400"
    case "Somewhat Solid" => "text-yellow-600 dark:text-port-400"
    case "Shaky" => "text-orange-600 dark:text-port-400"
    case "Flimsy" => "text-red-600 dark:text-port-400"
    case _ => "text-gray-600 dark:text-port-400"
  }

  /** The five ratings the dashboard names. */
  const Ratings: seq<string> := ["Rock Solid", "Mostly Solid", "Somewhat Solid", "Shaky", "Flimsy"]

  /** The named ratings get five different colours. */
  lemma CredibilityColorsDistinct(rating: string, rating': string)
    requires rating in Ratings && rating' in Ratings && rating != rating'
    ensures CredibilityColor(rating) != CredibilityColor(rating')
  {
  }

  /** Gray is the colour of every other rating, and of no named one. */
  lemma CredibilityDefault(rating: string)
    ensures rating !in Ratings <==> CredibilityColor(rating) == "text-gray-600 dark:text-port-400"
  {
  }

  datatype IconShape = Shield | AlertTriangle

  /** The icon and its colour class; every icon also carries the size classes `h-5 w-5`. */
  datatype Icon = Icon(shape: IconShape, color: string)

  /** `getCredibilityIcon` (lines 82-91). */
  function CredibilityIcon(rating: string): Icon {
    match rating
    case "Rock Solid" => Icon(Shield, "text-green-600 dark:text-port-400")
    case "Mostly Solid" => Icon(Shield, "text-emerald-600 dark:text-port-400")
    case "Somewhat Solid" => Icon(Shield, "text-yellow-600 dark:text-port-400")
    case "Shaky" => Icon(AlertTriangle, "text-orange-600 dark:text-port-400")
    case "Flimsy" => Icon(AlertTriangle, "text-red-600 dark:text-port-400")
    case _ => Icon(Shield, "text-gray-600 dark:text-port-400")
  }

  /** The warning triangle is shown exactly for the two weakest ratings, and the icon wears the rating's colour. */
  lemma IconAgreesWithColor(rating: string)
    ensures CredibilityIcon(rating).shape == AlertTriangle <==> rating == "Shaky" || rating == "Flimsy"
    ensures CredibilityIcon(rating).color == CredibilityColor(rating)
  {
  }
}
