/** The closed set of currencies the service converts between. */
module Currencies {

  /** Declared in this order: SEK, EUR, USD. */
  datatype Currency = SEK | EUR | USD

  /** A direction of conversion: from the first currency to the second. */
  type Pair = (Currency, Currency)

  /** The enum's values() array: every currency once, in declaration order. */
  function Values(): (vs: seq<Currency>)
    ensures |vs| == 3
    ensures forall c: Currency :: c in vs
    ensures forall i, j :: 0 <= i < j < |vs| ==> vs[i] != vs[j]
  {
    EveryCurrencyDeclared();
    [SEK, EUR, USD]
  }

  lemma EveryCurrencyDeclared()
    ensures forall c: Currency :: c in [SEK, EUR, USD]
  {
    forall c: Currency ensures c in [SEK, EUR, USD] {
      if c.SEK? {
        assert [SEK, EUR, USD][0] == c;
      } else if c.EUR? {
        assert [SEK, EUR, USD][1] == c;
      } else {
        assert [SEK, EUR, USD][2] == c;
      }
    }
  }

  /** Position of a currency in declaration order (Enum.ordinal()). */
  function Ordinal(c: Currency): (n: nat)
    ensures n < |Values()|
  {
    match c
    case SEK => 0
    case EUR => 1
    case USD => 2
  }

  /** Series identifier the Riksbank API uses for the currency. */
  function SeriesId(c: Currency): string
  {
    match c
    case SEK => "SEKETT"
    case EUR => "SEKEURPMI"
    case USD => "SEKUSDPMI"
  }

  /** Internal numeric id given in the enum's constructor. */
  function Id(c: Currency): int
  {
    match c
    case SEK => 1
    case EUR => 2
    case USD => 3
  }

  /** The constant's name, which is what Enum.toString() yields. */
  function Name(c: Currency): string
  {
    match c
    case SEK => "SEK"
    case EUR => "EUR"
    case USD => "USD"
  }

  /** Ordinals are 0, 1, 2 in declaration order. */
  lemma OrdinalsInDeclarationOrder()
    ensures Values() == [SEK, EUR, USD]
    ensures Ordinal(SEK) == 0 && Ordinal(EUR) == 1 && Ordinal(USD) == 2
  {
  }

  /** The ordinal is the currency's index in values(). */
  lemma OrdinalIsPosition(c: Currency)
    ensures Values()[Ordinal(c)] == c
  {
  }

  /** Distinct currencies have distinct ordinals. */
  lemma OrdinalInjective(a: Currency, b: Currency)
    ensures Ordinal(a) == Ordinal(b) <==> a == b
  {
  }

  /** Series ids are pairwise distinct and never contain the URL separator '/'. */
  lemma SeriesIdInjective(a: Currency, b: Currency)
    ensures SeriesId(a) == SeriesId(b) <==> a == b
    ensures '/' !in SeriesId(a)
  {
  }

  /** The ids 1, 2, 3 follow declaration order, so comparing ids is comparing ordinals. */
  lemma IdAgreesWithOrdinal(a: Currency, b: Currency)
    ensures Id(a) == Ordinal(a) + 1
    ensures Id(a) < Id(b) <==> Ordinal(a) < Ordinal(b)
  {
  }
}
