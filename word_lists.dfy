/** The three vocabularies the analyzer counts. */
module WordLists {
  const Pronouns: seq<string> := [
    "i", "me", "my", "mine", "myself",
    "you", "your", "yours", "yourself", "yourselves",
    "he", "him", "his", "himself",
    "she", "her", "hers", "herself",
    "it", "its", "itself",
    "we", "us", "our", "ours", "ourselves",
    "they", "them", "their", "theirs", "themselves",
    "who", "whom", "whose", "which", "that",
    "this", "these", "those"
  ]

  const Prepositions: seq<string> := [
    "about", "above", "across", "after", "against", "along", "amid", "among", "around", "at",
    "before", "behind", "below", "beneath", "beside", "between", "beyond", "by",
    "concerning", "considering",
    "despite", "down", "during",
    "except",
    "for", "from",
    "in", "inside", "into",
    "like",
    "near",
    "of", "off", "on", "onto", "out", "outside", "over",
    "past", "per",
    "regarding",
    "since",
    "through", "throughout", "to", "toward", "towards",
    "under", "underneath", "until", "unto", "up", "upon",
    "with", "within", "without"
  ]

  /** Indefinite articles only. */
  const Articles: seq<string> := ["a", "an"]

  /** The sizes of the lists, and the entries the whole-word examples rely on. */
  lemma WordListShapes()
    ensures |Pronouns| == 39 && |Prepositions| == 56 && |Articles| == 2
    ensures Pronouns[36] == "this"
    ensures Prepositions[26] == "in" && Prepositions[27] == "inside"
  {
  }
}
