/** The built-in catalog the store starts from when nothing is persisted,
    and the two category tables the cards read. */
module Catalog {
  import opened Model
  import Dates
  import opened Optional

  /** The seed events, in catalog order. */
  const MOCK_EVENTS: seq<Event> := [EVENT_1, EVENT_12, EVENT_13, EVENT_14]

  const EVENT_1: Event := Event(
    "1",
    "Wild in Groningen",
    "Tripje naar Groningen vol gezelligheid en activiteiten. Een geweldige kans om de prachtige stad Groningen te ontdekken samen met andere studenten. We gaan verschillende bezienswaardigheden bezoeken, lokale specialiteiten proeven en genieten van de unieke sfeer van deze studentenstad. Een onvergetelijk weekend vol nieuwe ervaringen en vriendschappen.",
    "Tripje naar Groningen vol gezelligheid en activiteiten",
    "2025-11-21",
    "16:00",
    "Groningen",
    "https://images.unsplash.com/photo-1469474968028-56623f02e42e?w=800&h=600&fit=crop",
    "tripje",
    125,
    30,
    21,
    "Fermi Vereniging",
    ["groningen", "tripje", "gezelligheid", "weekend"])

  const EVENT_12: Event := Event(
    "12",
    "ALV (Algemene Ledenvergadering)",
    "De jaarlijkse Algemene Ledenvergadering van Fermi Vereniging. Kom en hoor wat er het afgelopen jaar is gebeurd, wat de plannen zijn voor het komende jaar, en breng je stem uit over belangrijke verenigingszaken. Na afloop is er een gezellige borrel.",
    "Jaarlijkse Algemene Ledenvergadering",
    "2025-09-23",
    "19:00",
    "Universiteit Utrecht",
    "https://images.unsplash.com/photo-1515187029135-18ee286d815b?w=800&h=600&fit=crop",
    "educatief",
    0,
    100,
    45,
    "Fermi Vereniging",
    ["alv", "vergadering", "vereniging", "bestuur"])

  const EVENT_13: Event := Event(
    "13",
    "Impuls Cursus",
    "Een intensieve cursus om je vaardigheden te verbeteren en nieuwe kennis op te doen. Perfect voor studenten die zich verder willen ontwikkelen op academisch en persoonlijk vlak. De cursus wordt gegeven door ervaren docenten en professionals uit het vakgebied.",
    "Intensieve cursus voor persoonlijke ontwikkeling",
    "2025-10-12",
    "10:00",
    "Universiteit Utrecht",
    "https://images.unsplash.com/photo-1434030216411-0b793f4b4173?w=800&h=600&fit=crop",
    "educatief",
    25,
    40,
    28,
    "Fermi Vereniging",
    ["cursus", "ontwikkeling", "leren", "vaardigheden"])

  const EVENT_14: Event := Event(
    "14",
    "Lezing: Toekomst van de Wetenschap",
    "Een boeiende lezing over de toekomst van wetenschappelijk onderzoek en technologische ontwikkelingen. Gerenommeerde sprekers delen hun visie op wat ons te wachten staat in de komende decennia. Een must voor iedereen die ge\U{00EF}nteresseerd is in wetenschap en innovatie.",
    "Inspirerende lezing over wetenschappelijke ontwikkelingen",
    "2025-10-14",
    "20:00",
    "Universiteit Utrecht",
    "https://images.unsplash.com/photo-1507003211169-0a1dd7228f2d?w=800&h=600&fit=crop",
    "educatief",
    5,
    150,
    87,
    "Fermi Vereniging",
    ["lezing", "wetenschap", "toekomst", "innovatie"])

  /** Badge colour per category key. */
  const CATEGORY_COLORS: map<string, string> := map[
    "educatief" := "#8B5CF6",
    "sociaal" := "#F59E0B",
    "tripje" := "#10B981",
    "sport" := "#FF6B6B",
    "cultuur" := "#4ECDC4",
    "muziek" := "#45B7D1",
    "workshop" := "#96CEB4",
    "netwerk" := "#FFEAA7",
    "eten" := "#DDA0DD"
  ]

  /** Display label per category key. */
  const CATEGORY_LABELS: map<string, string> := map[
    "educatief" := "Educatief",
    "sociaal" := "Sociaal",
    "tripje" := "Tripje",
    "sport" := "Sport",
    "cultuur" := "Cultuur",
    "muziek" := "Muziek",
    "workshop" := "Workshop",
    "netwerk" := "Netwerk",
    "eten" := "Eten & Drinken"
  ]

  /** The catalog holds four events whose ids are `1`, `12`, `13`, `14`,
      pairwise distinct. */
  lemma SeedIds()
    ensures |MOCK_EVENTS| == 4
    ensures MOCK_EVENTS[0].id == "1" && MOCK_EVENTS[1].id == "12"
    ensures MOCK_EVENTS[2].id == "13" && MOCK_EVENTS[3].id == "14"
    ensures forall i, j :: 0 <= i < j < |MOCK_EVENTS| ==> MOCK_EVENTS[i].id != MOCK_EVENTS[j].id
  {
  }

  /** Every seed event respects its capacity and has a non-negative price. */
  lemma SeedCounts()
    ensures forall i :: 0 <= i < |MOCK_EVENTS| ==>
      0 <= MOCK_EVENTS[i].currentParticipants <= MOCK_EVENTS[i].maxParticipants && MOCK_EVENTS[i].price >= 0
  {
  }

  /** Every seed category has a colour and a label, and the two tables
      share their nine keys. */
  lemma SeedCategories()
    ensures forall i :: 0 <= i < |MOCK_EVENTS| ==>
      MOCK_EVENTS[i].category in CATEGORY_COLORS && MOCK_EVENTS[i].category in CATEGORY_LABELS
    ensures CATEGORY_COLORS.Keys == CATEGORY_LABELS.Keys
    ensures |CATEGORY_COLORS.Keys| == 9
  {
    CategoryKeys();
    assert MOCK_EVENTS[0].category == "tripje";
    assert forall i :: 1 <= i < |MOCK_EVENTS| ==> MOCK_EVENTS[i].category == "educatief";
  }

  lemma CategoryKeys()
    ensures CATEGORY_COLORS.Keys == CATEGORY_LABELS.Keys
    ensures |CATEGORY_COLORS| == 9
  {
    ColorCount();
    ColorKeys();
    LabelKeys();
  }

  lemma ColorCount()
    ensures |CATEGORY_COLORS| == 9
  {
  }

  lemma ColorKeys()
    ensures CATEGORY_COLORS.Keys == {"educatief", "sociaal", "tripje", "sport", "cultuur", "muziek", "workshop", "netwerk", "eten"}
  {
  }

  lemma LabelKeys()
    ensures CATEGORY_LABELS.Keys == {"educatief", "sociaal", "tripje", "sport", "cultuur", "muziek", "workshop", "netwerk", "eten"}
  {
  }

  /** Every seed date is a well-formed `YYYY-MM-DD` calendar date. */
  lemma SeedDates()
    ensures forall i :: 0 <= i < |MOCK_EVENTS| ==> Dates.Parse(MOCK_EVENTS[i].date).Some?
  {
    Dates.FieldsByDigit(EVENT_1.date);
    Dates.FieldsByDigit(EVENT_12.date);
    Dates.FieldsByDigit(EVENT_13.date);
    Dates.FieldsByDigit(EVENT_14.date);
  }
}
