/**
 * The part of the Wikibase data model that the reconciliation edit endpoint
 * inspects: entity ids, main snaks, statements, items, the outcome of a
 * latest-revision lookup, and the syntax of property ids.
 */
module Wikibase {
  import opened Wrappers

  /** A property id `P<n>`. The library upper-cases the serialization, so `p7` and `P7` are one id. */
  datatype PropertyId = PropertyId(number: nat)

  /** An item id `Q<n>`. */
  datatype ItemId = ItemId(number: nat)

  /** What the page-to-entity lookup can report for a page: an item, a property, or another entity kind. */
  datatype EntityId = ItemEntityId(itemId: ItemId) | PropertyEntityId(propertyId: PropertyId) | OtherEntityId

  /** A statement's main snak. A value snak carries a string; non-string data values are not modelled. */
  datatype Snak = ValueSnak(value: string) | SomeValueSnak | NoValueSnak

  /** A statement: its property, its main snak, and how many qualifiers and references it carries. */
  datatype Statement = Statement(property: PropertyId, mainSnak: Snak, qualifierCount: nat, referenceCount: nat)

  /** An item as far as the endpoint looks at it: its id (absent until one is set), its statements and how many sitelinks it has. */
  datatype Item = Item(id: Option<ItemId>, statements: seq<Statement>, sitelinkCount: nat)

  /** The three outcomes of a latest-revision lookup. */
  datatype LatestRevision = ConcreteRevision(revId: int) | Redirect | NonexistentEntity

  /** `new Item()` followed by `setId(id)`: an empty item carrying `id`. */
  function NewItem(id: ItemId): Item {
    Item(Some(id), [], 0)
  }

  /** The statements on `property`, in their original order (StatementList::getByPropertyId). */
  function StatementsOn(statements: seq<Statement>, property: PropertyId): (r: seq<Statement>)
    ensures |r| <= |statements|
    ensures forall st :: st in r <==> st in statements && st.property == property
  {
    if statements == [] then []
    else
      var init, last := statements[..|statements| - 1], statements[|statements| - 1];
      assert statements == init + [last];
      StatementsOn(init, property) + (if last.property == property then [last] else [])
  }

  /** Statement `i` is on `property` and no other statement is. */
  ghost predicate OnlyStatementOn(statements: seq<Statement>, property: PropertyId, i: int) {
    && 0 <= i < |statements|
    && statements[i].property == property
    && forall j :: 0 <= j < |statements| && j != i ==> statements[j].property != property
  }

  lemma NoStatementsOn(statements: seq<Statement>, property: PropertyId)
    ensures StatementsOn(statements, property) == [] <==> forall j :: 0 <= j < |statements| ==> statements[j].property != property
  {
  }

  /** How appending one statement changes which index is the only one on `property`. */
  lemma OnlyStatementOnAppend(init: seq<Statement>, last: Statement, property: PropertyId, i: int)
    ensures last.property != property ==>
      (OnlyStatementOn(init + [last], property, i) <==> OnlyStatementOn(init, property, i))
    ensures last.property == property ==>
      (OnlyStatementOn(init + [last], property, i) <==> i == |init| && forall j :: 0 <= j < |init| ==> init[j].property != property)
  {
    var statements := init + [last];
    assert forall j :: 0 <= j < |init| ==> statements[j] == init[j];
    assert statements[|init|] == last;
  }

  /** getByPropertyId yields exactly one statement iff exactly one index of the list carries the property, and then it yields that statement. */
  lemma {:induction false} ExactlyOneStatementOn(statements: seq<Statement>, property: PropertyId)
    ensures |StatementsOn(statements, property)| == 1 <==> exists i :: OnlyStatementOn(statements, property, i)
    ensures forall i :: OnlyStatementOn(statements, property, i) ==> StatementsOn(statements, property) == [statements[i]]
  {
    if statements != [] {
      var n := |statements| - 1;
      var init, last := statements[..n], statements[n];
      assert statements == init + [last];
      ExactlyOneStatementOn(init, property);
      NoStatementsOn(init, property);
      if last.property == property {
        assert StatementsOn(statements, property) == StatementsOn(init, property) + [last];
        OnlyStatementOnAppend(init, last, property, n);
        forall i | OnlyStatementOn(statements, property, i)
          ensures i == n
        {
          OnlyStatementOnAppend(init, last, property, i);
        }
      } else {
        assert StatementsOn(statements, property) == StatementsOn(init, property);
        forall i
          ensures OnlyStatementOn(statements, property, i) <==> OnlyStatementOn(init, property, i)
        {
          OnlyStatementOnAppend(init, last, property, i);
        }
      }
    }
  }

  // ---- Property-id syntax: PropertyId::PATTERN is `^P[1-9]\d{0,9}\z` with the `i` flag ----

  predicate IsDigit(c: char) {
    '0' <= c <= '9'
  }

  predicate AllDigits(s: string) {
    forall i :: 0 <= i < |s| ==> IsDigit(s[i])
  }

  /** True iff `s` matches the property-id pattern: `P` or `p`, a non-zero digit, then at most nine more digits. */
  predicate IsPropertyIdSerialization(s: string) {
    && 2 <= |s| <= 11
    && (s[0] == 'P' || s[0] == 'p')
    && '1' <= s[1] <= '9'
    && AllDigits(s[1..])
  }

  function DigitChar(d: nat): (c: char)
    requires d < 10
    ensures IsDigit(c)
  {
    ('0' as int + d) as char
  }

  /** The number a decimal digit string denotes. */
  function DecimalValue(ds: string): nat
    requires AllDigits(ds)
  {
    if ds == [] then 0
    else DecimalValue(ds[..|ds| - 1]) * 10 + (ds[|ds| - 1] as int - '0' as int)
  }

  /** The shortest decimal digit string for `n`. */
  function DecimalString(n: nat): (s: string)
    ensures 1 <= |s| && AllDigits(s)
    ensures n > 0 ==> s[0] != '0'
  {
    if n < 10 then [DigitChar(n)] else DecimalString(n / 10) + [DigitChar(n % 10)]
  }

  /** Reading the shortest decimal string of `n` gives back `n`. */
  lemma {:induction false} DecimalValueOfString(n: nat)
    ensures DecimalValue(DecimalString(n)) == n
  {
    var s := DecimalString(n);
    if n >= 10 {
      DecimalValueOfString(n / 10);
      assert s[..|s| - 1] == DecimalString(n / 10);
    }
  }

  lemma {:induction false} LeadingDigitPositive(ds: string)
    requires AllDigits(ds) && ds != [] && ds[0] != '0'
    ensures DecimalValue(ds) >= 1
  {
    if |ds| > 1 {
      LeadingDigitPositive(ds[..|ds| - 1]);
    }
  }

  /** A digit string without a leading zero is the shortest decimal string of its value. */
  lemma {:induction false} DecimalStringOfValue(ds: string)
    requires AllDigits(ds) && ds != [] && ds[0] != '0'
    ensures DecimalString(DecimalValue(ds)) == ds
  {
    var n := |ds| - 1;
    var init := ds[..n];
    if n > 0 {
      LeadingDigitPositive(init);
      DecimalStringOfValue(init);
      var d := ds[n] as int - '0' as int;
      assert DecimalValue(ds) / 10 == DecimalValue(init) && DecimalValue(ds) % 10 == d;
      assert ds == init + [ds[n]];
    }
  }

  lemma {:induction false} DecimalStringLength(n: nat, k: nat, bound: nat)
    requires 1 <= k && bound == Pow10(k) && n < bound
    ensures |DecimalString(n)| <= k
  {
    if n >= 10 {
      assert k > 1;
      DecimalStringLength(n / 10, k - 1, Pow10(k - 1));
    }
  }

  function Pow10(k: nat): nat {
    if k == 0 then 1 else 10 * Pow10(k - 1)
  }

  /** `new PropertyId( $s )`: defined exactly when `s` matches the pattern. */
  function ParsePropertyId(s: string): (r: Option<PropertyId>)
    ensures r.Some? <==> IsPropertyIdSerialization(s)
  {
    if IsPropertyIdSerialization(s) then Some(PropertyId(DecimalValue(s[1..]))) else None
  }

  /** PropertyId::getSerialization: `P` followed by the number in decimal. */
  function Serialization(p: PropertyId): string {
    ['P'] + DecimalString(p.number)
  }

  /** A parsed id serializes to its input with the leading letter upper-cased. */
  lemma ParsedSerialization(s: string)
    requires IsPropertyIdSerialization(s)
    ensures Serialization(ParsePropertyId(s).value) == ['P'] + s[1..]
  {
    DecimalStringOfValue(s[1..]);
  }

  /** Every property id whose number has one to ten digits parses back from its serialization. */
  lemma SerializationParses(p: PropertyId)
    requires 1 <= p.number < 10_000_000_000
    ensures ParsePropertyId(Serialization(p)) == Some(p)
  {
    assert Pow10(10) == 10_000_000_000;
    DecimalStringLength(p.number, 10, Pow10(10));
    DecimalValueOfString(p.number);
    var s := Serialization(p);
    assert s[1..] == DecimalString(p.number);
  }
}
