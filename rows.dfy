/** The table's record type and the comparator that `result.sort` uses. */
module Rows {
  import opened Text

  datatype Option<+T> = None | Some(value: T)

  /** An attached file: its name and the object URL the browser issued for it.
      The URL is opaque here. */
  datatype FileRef = FileRef(name: string, url: string)

  /** One business-partner record as the table holds it. */
  datatype Row = Row(
    id: int,
    partnerNumber: string,
    companyCode: string,
    name1: string,
    name2: string,
    businessGroup: string,
    industry: string,
    phone1: string,
    phone2: string,
    withTaxType: string,
    holdingSubject: string,
    searchTerm1: string,
    searchTerm2: string,
    taxId: string,
    file: Option<FileRef>,
    address: string,
    commercialId: string,
    crEndDate: string,
    crDaysLeft: int,
    taxEndDate: string,
    taxDaysLeft: int,
    email: string,
    rowClass: string,
    blocked: bool,
    blockReason: string)

  /** The fields the table sorts by: the initial `id` and the five clickable headers. */
  datatype SortKey = Id | PartnerNumber | CompanyCode | Name1 | Name2 | Industry

  datatype Dir = Asc | Desc

  /** The value the comparator works on: a number, or a string already lower-cased. */
  datatype KeyVal = Num(n: int) | Str(s: string)

  /** `a[sortBy]`, lower-cased when it is a string. */
  function KeyOf(r: Row, k: SortKey): (v: KeyVal)
    ensures v.Num? <==> k == Id
    ensures v.Str? ==> NoUpper(v.s)
  {
    match k
    case Id => Num(r.id)
    case PartnerNumber => Str(Lower(r.partnerNumber))
    case CompanyCode => Str(Lower(r.companyCode))
    case Name1 => Str(Lower(r.name1))
    case Name2 => Str(Lower(r.name2))
    case Industry => Str(Lower(r.industry))
  }

  /** JavaScript's `<` on two key values of the same kind: no key is below
      itself, and only keys of one kind are ever ordered. */
  predicate KeyLess(x: KeyVal, y: KeyVal)
    ensures KeyLess(x, y) ==> x != y && x.Num? == y.Num?
  {
    match (x, y)
    case (Num(a), Num(b)) => a < b
    case (Str(a), Str(b)) => LexIrreflexive(a); LexLess(a, b)
    case _ => false
  }

  lemma KeyLessAsymmetric(x: KeyVal, y: KeyVal)
    ensures KeyLess(x, y) ==> !KeyLess(y, x)
  {
    if x.Str? && y.Str? {
      LexAsymmetric(x.s, y.s);
    }
  }

  /** The comparator of `result.sort`: -1 when `a` goes first, 1 when `b`
      does, 0 when neither key is below the other. Under `Asc` the row with
      the smaller key goes first, under `Desc` the row with the larger. */
  function Compare(k: SortKey, d: Dir, a: Row, b: Row): (r: int)
    ensures -1 <= r <= 1
    ensures r == 0 <==> !KeyLess(KeyOf(a, k), KeyOf(b, k)) && !KeyLess(KeyOf(b, k), KeyOf(a, k))
    ensures d == Asc ==> (r < 0 <==> KeyLess(KeyOf(a, k), KeyOf(b, k)))
    ensures d == Desc ==> (r < 0 <==> KeyLess(KeyOf(b, k), KeyOf(a, k)))
  {
    var x, y := KeyOf(a, k), KeyOf(b, k);
    KeyLessAsymmetric(x, y);
    if KeyLess(x, y) then (if d == Asc then -1 else 1)
    else if KeyLess(y, x) then (if d == Asc then 1 else -1)
    else 0
  }

  /** `a` may stand before `b` in the sorted output. */
  predicate InOrder(k: SortKey, d: Dir, a: Row, b: Row) {
    Compare(k, d, a, b) <= 0
  }

  /** The comparator is antisymmetric: swapping the arguments negates the
      result, so a tie stays a tie. */
  lemma CompareFlip(k: SortKey, d: Dir, a: Row, b: Row)
    ensures Compare(k, d, a, b) > 0 ==> Compare(k, d, b, a) < 0
    ensures Compare(k, d, a, b) < 0 ==> Compare(k, d, b, a) > 0
    ensures Compare(k, d, a, b) == 0 ==> Compare(k, d, b, a) == 0
  {
    KeyLessAsymmetric(KeyOf(a, k), KeyOf(b, k));
  }

  /** Under `Asc` the order is non-decreasing key, under `Desc` non-increasing key. */
  lemma InOrderMeaning(k: SortKey, d: Dir, a: Row, b: Row)
    ensures d == Asc ==> (InOrder(k, d, a, b) <==> !KeyLess(KeyOf(b, k), KeyOf(a, k)))
    ensures d == Desc ==> (InOrder(k, d, a, b) <==> !KeyLess(KeyOf(a, k), KeyOf(b, k)))
  {
    KeyLessAsymmetric(KeyOf(a, k), KeyOf(b, k));
  }

  /** Negative transitivity of JavaScript's `<` on keys of one kind. */
  lemma KeyNotLessTransitive(x: KeyVal, y: KeyVal, z: KeyVal)
    requires x.Num? == y.Num? == z.Num?
    requires !KeyLess(y, x) && !KeyLess(z, y)
    ensures !KeyLess(z, x)
  {
    if x.Str? && LexLess(z.s, x.s) {
      if y.s == z.s {
      } else {
        LexTotal(y.s, z.s);
        LexTransitive(y.s, z.s, x.s);
      }
    }
  }

  /** `InOrder` is transitive, so sorting by it is well defined. */
  lemma InOrderTransitive(k: SortKey, d: Dir, a: Row, b: Row, c: Row)
    requires InOrder(k, d, a, b) && InOrder(k, d, b, c)
    ensures InOrder(k, d, a, c)
  {
    var x, y, z := KeyOf(a, k), KeyOf(b, k), KeyOf(c, k);
    InOrderMeaning(k, d, a, b);
    InOrderMeaning(k, d, b, c);
    InOrderMeaning(k, d, a, c);
    if d == Asc {
      KeyNotLessTransitive(x, y, z);
    } else {
      KeyNotLessTransitive(z, y, x);
    }
  }
}
