/** The provider record (`ProviderData`) and its five field keys. */
module Providers {

  /** The keys of `ProviderData`, in the order the form's initial state
      lists them (the order `Object.keys` visits them). */
  datatype Field = LastName | FirstName | EmailAddress | Specialty | PracticeName

  const AllFields: seq<Field> := [LastName, FirstName, EmailAddress, Specialty, PracticeName]

  /** One value per field key: `ProviderData` itself is `ByField<string>`,
      and the form's `touched` record is `ByField<bool>`. */
  datatype ByField<T> = ByField(lastName: T, firstName: T, emailAddress: T, specialty: T, practiceName: T)
  {
    /** `record[key]` */
    function Get(k: Field): T {
      match k
      case LastName => lastName
      case FirstName => firstName
      case EmailAddress => emailAddress
      case Specialty => specialty
      case PracticeName => practiceName
    }

    /** `{ ...record, [key]: v }`: field `k` becomes `v`, every other field
        keeps its value. */
    function Set(k: Field, v: T): (r: ByField<T>)
      ensures r.Get(k) == v
      ensures forall j :: j != k ==> r.Get(j) == Get(j)
    {
      match k
      case LastName => this.(lastName := v)
      case FirstName => this.(firstName := v)
      case EmailAddress => this.(emailAddress := v)
      case Specialty => this.(specialty := v)
      case PracticeName => this.(practiceName := v)
    }
  }

  type Provider = ByField<string>

  /** Every key is listed in `AllFields`. */
  lemma AllFieldsComplete(k: Field)
    ensures k in AllFields
  {
  }

  /** Two records that agree on every key are the same record. */
  lemma ByFieldExtensional<T>(a: ByField<T>, b: ByField<T>)
    requires forall k :: a.Get(k) == b.Get(k)
    ensures a == b
  {
    assert a.Get(LastName) == b.Get(LastName);
    assert a.Get(FirstName) == b.Get(FirstName);
    assert a.Get(EmailAddress) == b.Get(EmailAddress);
    assert a.Get(Specialty) == b.Get(Specialty);
    assert a.Get(PracticeName) == b.Get(PracticeName);
  }

  /** Writing a field's own value back leaves the record as it was. */
  lemma SetOwnValue<T>(p: ByField<T>, k: Field)
    ensures p.Set(k, p.Get(k)) == p
  {
    ByFieldExtensional(p.Set(k, p.Get(k)), p);
  }
}
