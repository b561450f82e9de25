/** The fixed-width record types the generic list is used with, `int` and
    `Person`, together with the orderings the in-file sort compares them by.
    Their byte widths only size records, which the list engine takes as a
    parameter. */
module Records {
  import opened Bytes
  import Lexicographic
  import opened Order

  /** `>` on `int` payloads. */
  predicate IntGreater(a: int, b: int) {
    a > b
  }

  /** The text of a NUL-terminated name buffer, up to its first NUL: it
      holds no NUL itself, which is what makes strcmp a comparison of the
      whole text. */
  type Name = s: seq<Byte> | 0 !in s

  /** A person: the name read from the name buffer, and the age. */
  datatype Person = Person(name: Name, age: int)

  /** `Person::operator>`: compare names with strcmp, then ages. */
  predicate Greater(p: Person, q: Person) {
    var c := Lexicographic.Compare(p.name, q.name);
    if c > 0 then true
    else if c < 0 then false
    else p.age > q.age
  }

  /** `Person::operator<`: compare names with strcmp, then ages. */
  predicate Less(p: Person, q: Person) {
    var c := Lexicographic.Compare(p.name, q.name);
    if c < 0 then true
    else if c > 0 then false
    else p.age < q.age
  }

  /** The two operators are converses of each other. */
  lemma LessIsConverse(p: Person, q: Person)
    ensures Less(p, q) <==> Greater(q, p)
  {
    Lexicographic.CompareAntisymmetric(p.name, q.name);
  }

  /** Persons are ordered lexicographically: by name first, by age among
      equal names. */
  lemma GreaterIsByNameThenAge(p: Person, q: Person)
    ensures Greater(p, q) <==>
              Lexicographic.Less(q.name, p.name) || (p.name == q.name && p.age > q.age)
  {
    Lexicographic.CompareAntisymmetric(p.name, q.name);
    Lexicographic.CompareZeroIffEqual(p.name, q.name);
  }

  /** `Person::operator>` is a strict total order: the in-file sort ends with
      the persons fully sorted. */
  lemma PersonGreaterIsStrictOrder()
    ensures Asymmetric(Greater) && NegTransitive(Greater)
    ensures forall p, q :: p != q ==> Greater(p, q) || Greater(q, p)
  {
    Lexicographic.GreaterIsStrictOrder();
    forall p, q ensures Greater(p, q) ==> !Greater(q, p) {
      GreaterIsByNameThenAge(p, q);
      GreaterIsByNameThenAge(q, p);
      Lexicographic.CompareAntisymmetric(p.name, q.name);
    }
    forall p, q, r | !Greater(p, q) && !Greater(q, r) ensures !Greater(p, r) {
      GreaterIsByNameThenAge(p, q);
      GreaterIsByNameThenAge(q, r);
      GreaterIsByNameThenAge(p, r);
      Lexicographic.CompareZeroIffEqual(p.name, q.name);
      Lexicographic.CompareZeroIffEqual(q.name, r.name);
      Lexicographic.CompareAntisymmetric(p.name, q.name);
      Lexicographic.CompareAntisymmetric(q.name, r.name);
      Lexicographic.CompareAntisymmetric(p.name, r.name);
      if Lexicographic.Less(p.name, q.name) && Lexicographic.Less(q.name, r.name) {
        Lexicographic.LessTransitive(p.name, q.name, r.name);
      }
    }
    forall p, q | p != q ensures Greater(p, q) || Greater(q, p) {
      GreaterIsByNameThenAge(p, q);
      GreaterIsByNameThenAge(q, p);
      Lexicographic.CompareZeroIffEqual(p.name, q.name);
      Lexicographic.CompareAntisymmetric(p.name, q.name);
    }
  }

  /** `>` on `int` is a strict total order. */
  lemma IntGreaterIsStrictOrder()
    ensures Asymmetric(IntGreater) && NegTransitive(IntGreater)
  {
  }
}
