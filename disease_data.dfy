/** Static catalogue data shared by the bookmark store and the tip card. */
module DiseaseData {

  /** A catalogue entry. Only `id` matters to the bookmark store; the image
      reference of an entry is not modelled. */
  datatype Disease = Disease(id: string, name: string, short: string, full: string)

  /** The fixed, non-empty pool of tip-of-the-day strings. */
  const TipsOfTheDay: seq<string> := [
    "Regularly inspect your plants for early signs of disease.",
    "Water plants at the base to prevent leaf moisture.",
    "Use certified disease-free seeds and tubers.",
    "Maintain proper soil pH to enhance plant resistance.",
    "Remove and destroy infected plant debris promptly."
  ]
}
