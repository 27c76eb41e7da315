/** The rules of the event card: how many places are left, the price text
    and the availability badge under it, and the category colour. */
module EventCard {
  import opened Optional
  import opened Model
  import Decimal
  import Catalog
  import Store

  /** The euro sign, U+20AC. */
  const EURO: char := '\U{20AC}'

  const FREE: string := "Gratis"
  const SOLD_OUT: string := "Uitverkocht"

  /** Places left; negative when the event is overbooked, which the store
      allows because registering checks no capacity. */
  function SpotsLeft(e: Event): (n: int)
    ensures n < 0 <==> e.currentParticipants > e.maxParticipants
    ensures n == 0 <==> e.currentParticipants == e.maxParticipants
  {
    e.maxParticipants - e.currentParticipants
  }

  /** The price text: "Gratis" for a free event, otherwise the euro sign
      followed by the amount (a negative amount keeps its minus sign, as a
      template literal would print it). */
  function PriceLabel(price: int): (s: string)
    ensures s == FREE <==> price == 0
    ensures price != 0 ==> |s| >= 2 && s[0] == EURO && s[1..] == Decimal.IntToString(price)
  {
    if price == 0 then FREE
    else
      var s := [EURO] + Decimal.IntToString(price);
      assert s[0] != FREE[0];
      s
  }

  /** The price text as the card's source file spells it: its euro sign is
      stored double-encoded, so it reads as the three characters U+00E2,
      U+201A, U+00AC. */
  function PriceLabelAsWritten(price: int): (s: string)
    ensures s == FREE <==> price == 0
    ensures price != 0 ==> |s| >= 4 && s[..3] == MOJIBAKE_EURO && s[3..] == Decimal.IntToString(price)
  {
    if price == 0 then FREE
    else
      var s := MOJIBAKE_EURO + Decimal.IntToString(price);
      assert s[0] != FREE[0];
      s
  }

  /** The UTF-8 bytes of the euro sign read back as Windows-1252 text. */
  const MOJIBAKE_EURO: string := "\U{00E2}\U{201A}\U{00AC}"

  /** The card as written never shows a euro sign: for every paid event its
      label differs from the corrected one and holds no euro sign at all. */
  lemma AsWrittenShowsNoEuroSign(price: int)
    requires price != 0
    ensures PriceLabelAsWritten(price) != PriceLabel(price)
    ensures EURO !in PriceLabelAsWritten(price)
  {
    var s := PriceLabelAsWritten(price);
    assert s[0] != PriceLabel(price)[0];
    NoEuroInAmount(price);
    assert s == MOJIBAKE_EURO + Decimal.IntToString(price);
  }

  /** A 15 euro event: the card reads "â‚¬15" where "€15" was meant. */
  lemma AsWrittenFifteen()
    ensures PriceLabelAsWritten(15) == "\U{00E2}\U{201A}\U{00AC}15"
    ensures PriceLabel(15) == "\U{20AC}15"
  {
    assert Decimal.NatToString(15) == "15" by {
      assert Decimal.NatToString(1) == "1";
    }
  }

  /** A printed amount is a minus sign and digits, never a euro sign. */
  lemma NoEuroInAmount(price: int)
    ensures EURO !in Decimal.IntToString(price)
  {
    var digits := Decimal.IntToString(price);
    if price < 0 {
      var magnitude := Decimal.NatToString(-price);
      assert digits == "-" + magnitude;
      assert forall k :: 1 <= k < |digits| ==> digits[k] == magnitude[k - 1];
    }
  }

  /** The price text tells prices apart: two prices with the same label are
      the same price. */
  lemma PriceLabelInjective(p: int, q: int)
    requires PriceLabel(p) == PriceLabel(q)
    ensures p == q
  {
    if p != 0 && q != 0 {
      var a, b := Decimal.IntToString(p), Decimal.IntToString(q);
      assert a == PriceLabel(p)[1..] == PriceLabel(q)[1..] == b;
      if p > 0 && q > 0 {
        Decimal.NatToStringInjective(p, q);
      } else if p < 0 && q < 0 {
        assert a[1..] == Decimal.NatToString(-p) && b[1..] == Decimal.NatToString(-q);
        Decimal.NatToStringInjective(-p, -q);
      }
    }
  }

  /** The digits after the euro sign of a paid event read back as its price. */
  lemma PriceLabelReadsBack(price: int)
    requires price > 0
    ensures Decimal.ParseNat(PriceLabel(price)[1..]) == Some(price)
  {
    Decimal.NatToStringParses(price);
  }

  /** Which availability badge a card carries. */
  datatype Availability = FewSpots(n: nat) | SoldOut | NoBadge

  /** The badge rule stated as a classification of the places left. */
  function Classify(spotsLeft: int): (a: Availability)
    ensures a.FewSpots? <==> 1 <= spotsLeft <= 5
    ensures a.FewSpots? ==> a.n == spotsLeft
    ensures a == SoldOut <==> spotsLeft == 0
    ensures a == NoBadge <==> spotsLeft < 0 || spotsLeft > 5
  {
    if 1 <= spotsLeft <= 5 then FewSpots(spotsLeft)
    else if spotsLeft == 0 then SoldOut
    else NoBadge
  }

  /** The text a badge shows. */
  function BadgeText(a: Availability): seq<string> {
    match a
    case FewSpots(n) => ["Nog " + Decimal.NatToString(n) + " plekken"]
    case SoldOut => [SOLD_OUT]
    case NoBadge => []
  }

  /** The two independent conditionals of the card, in order: the "few
      places" text when 1 to 5 places are left, then "Uitverkocht" when none
      are. */
  function Badges(spotsLeft: int): (r: seq<string>)
    ensures |r| <= 1
    ensures SOLD_OUT in r <==> spotsLeft == 0
    ensures |r| == 0 <==> spotsLeft < 0 || spotsLeft > 5
  {
    var few := if spotsLeft <= 5 && spotsLeft > 0 then ["Nog " + Decimal.IntToString(spotsLeft) + " plekken"] else [];
    var soldOut := if spotsLeft == 0 then [SOLD_OUT] else [];
    assert few != [] ==> few[0] != SOLD_OUT by {
      if few != [] {
        assert few[0][0] == 'N';
      }
    }
    few + soldOut
  }

  /** The card's conditionals show exactly the text of the classified badge. */
  lemma BadgesFollowClassification(spotsLeft: int)
    ensures Badges(spotsLeft) == BadgeText(Classify(spotsLeft))
  {
  }

  /** Registering for an event takes one place from its card and leaves every
      other card alone, even past capacity. */
  lemma SpotsLeftAfterRegister(s: Model.Store, eventId: string, userName: string, userEmail: string,
                               newId: string, now: string, i: int)
    requires 0 <= i < |s.events|
    ensures var r := Store.RegisterForEvent(s, eventId, userName, userEmail, newId, now);
            SpotsLeft(r.events[i]) == SpotsLeft(s.events[i]) - (if s.events[i].id == eventId then 1 else 0)
  {
  }

  /** Registering for a sold-out event overbooks it, and the card then shows
      no badge at all. */
  lemma OverbookedCardHasNoBadge(s: Model.Store, userName: string, userEmail: string,
                                 newId: string, now: string, i: int)
    requires 0 <= i < |s.events| && SpotsLeft(s.events[i]) == 0
    ensures var r := Store.RegisterForEvent(s, s.events[i].id, userName, userEmail, newId, now);
            SpotsLeft(r.events[i]) == -1 && Badges(SpotsLeft(r.events[i])) == []
  {
  }

  /** `CATEGORY_COLORS[event.category]`, absent for a category the table
      does not name.  The colour and label tables have the same keys, so a
      card has a colour exactly when its category has a label. */
  function CategoryColor(e: Event): (c: Option<string>)
    ensures c.Some? <==> e.category in Catalog.CATEGORY_COLORS
    ensures c.Some? ==> c.value == Catalog.CATEGORY_COLORS[e.category]
    ensures c.Some? <==> e.category in Catalog.CATEGORY_LABELS
  {
    Catalog.CategoryKeys();
    if e.category in Catalog.CATEGORY_COLORS then Some(Catalog.CATEGORY_COLORS[e.category]) else None
  }

  /** Every card of the catalog has a colour. */
  lemma SeedCardsHaveColours()
    ensures forall i :: 0 <= i < |Catalog.MOCK_EVENTS| ==> CategoryColor(Catalog.MOCK_EVENTS[i]).Some?
  {
    Catalog.SeedCategories();
  }
}
