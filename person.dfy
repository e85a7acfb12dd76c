/** `Person` from the struct lessons: a first and a last name, and the methods on them. */
module People {
  import opened Text
  import opened SplitPair

  class Person {
    var firstName: string
    var lastName: string

    /** `Person::new(first, last)`. */
    constructor (first: string, last: string)
      ensures firstName == first && lastName == last
    {
      firstName, lastName := first, last;
    }

    /** `full_name`: the two names with one space between them. */
    function FullName(): (r: string)
      reads this
      ensures |r| == |firstName| + 1 + |lastName|
      ensures r[..|firstName|] == firstName && r[|firstName|] == ' ' && r[|firstName| + 1..] == lastName
    {
      firstName + " " + lastName
    }

    /** `copy`: a new person with the same names. */
    method Copy() returns (p: Person)
      ensures fresh(p)
      ensures p.firstName == firstName && p.lastName == lastName
      ensures p.FullName() == FullName()
    {
      p := new Person(firstName, lastName);
    }

    /** `set_first_name`: only the first name changes. */
    method SetFirstName(name: string)
      modifies this
      ensures firstName == name && lastName == old(lastName)
    {
      firstName := name;
    }

    /** `to_tuple`: the two names, first then last. */
    method ToTuple() returns (t: (string, string))
      ensures t == (firstName, lastName)
    {
      t := (firstName, lastName);
    }
  }

  /** A full name whose first name has no space splits back into the two names at its first space. */
  lemma FullNameSplits(first: string, last: string)
    requires ' ' !in first
    ensures Pair(first + " " + last, ' ') == (first, last)
  {
    assert first + " " + last == first + [' '] + last;
    PairUnique(first, ' ', last);
  }

  /** "John Smith", then a copy and a new first name for the original only. */
  method Lesson() returns (full: string, copied: (string, string), renamed: (string, string))
    ensures full == "John Smith"
    ensures copied == ("John", "Smith")
    ensures renamed == ("Jane", "Smith")
  {
    var p := new Person("John", "Smith");
    full := p.FullName();
    var q := p.Copy();
    p.SetFirstName("Jane");
    copied := q.ToTuple();
    renamed := p.ToTuple();
  }
}
