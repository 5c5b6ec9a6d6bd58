/**
 * The person records of the People page and the pure logic derived from them:
 * the slug that names a person in the URL (`getPersonLink`), the styling of a
 * person's name (`getPersonClass`), and the resolution of every person's mother
 * and father by exact name, first match first (the second effect of `People`).
 */
module People {
  import opened Wrappers
  import opened JsStrings

  /** A person as the server sends it. */
  datatype Person = Person(
    name: string,
    sex: string,
    born: int,
    died: Option<int>,
    motherName: Option<string>,
    fatherName: Option<string>)

  /** A person with the parents found in the same list and the person's slug. */
  datatype ResolvedPerson = ResolvedPerson(
    person: Person,
    mother: Option<Person>,
    father: Option<Person>,
    slug: string)

  /**
   * `getPersonLink`: the name lowercased, split on ' ' and joined with '-', then '-' and the
   * year of birth. Equivalently every space becomes one hyphen, so runs of spaces give runs of hyphens.
   */
  function PersonLink(name: string, born: int): (slug: string)
    ensures slug == Replace(ToLowerAscii(name), ' ', '-') + "-" + IntToDecimal(born)
  {
    JoinSplitIsReplace(ToLowerAscii(name), ' ', '-');
    Join(Split(ToLowerAscii(name), ' '), "-") + "-" + IntToDecimal(born)
  }

  /** A slug has one character per character of the name, then '-' and the year. */
  lemma PersonLinkShape(name: string, born: int)
    ensures var slug := PersonLink(name, born);
      && |slug| == |name| + 1 + |IntToDecimal(born)|
      && (forall i :: 0 <= i < |name| ==> slug[i] == if name[i] == ' ' then '-' else LowerChar(name[i]))
      && slug[|name|..] == "-" + IntToDecimal(born)
  {
  }

  /** A slug contains no space and is never empty. */
  lemma PersonLinkNoSpace(name: string, born: int)
    ensures ' ' !in PersonLink(name, born)
    ensures PersonLink(name, born) != ""
  {
    var slug := PersonLink(name, born);
    var lowered := Replace(ToLowerAscii(name), ' ', '-');
    forall i | 0 <= i < |slug|
      ensures slug[i] != ' '
    {
      if i < |lowered| {
        assert slug[i] == lowered[i];
      } else if i > |lowered| {
        assert slug[i] == IntToDecimal(born)[i - |lowered| - 1];
      }
    }
  }

  /** The slug ignores the case of ASCII letters in the name. */
  lemma PersonLinkIgnoresCase(name: string, born: int)
    ensures PersonLink(ToLowerAscii(name), born) == PersonLink(name, born)
  {
    ToLowerAsciiIdempotent(name);
  }

  /** Two people with the same name have the same slug exactly when they were born in the same year. */
  lemma PersonLinkDeterminesBorn(name: string, born1: int, born2: int)
    ensures PersonLink(name, born1) == PersonLink(name, born2) <==> born1 == born2
  {
    var prefix := Replace(ToLowerAscii(name), ' ', '-') + "-";
    if PersonLink(name, born1) == PersonLink(name, born2) {
      assert PersonLink(name, born1)[|prefix|..] == IntToDecimal(born1);
      assert PersonLink(name, born2)[|prefix|..] == IntToDecimal(born2);
      IntToDecimalInjective(born1, born2);
    }
  }

  /** Slugs are not unique: names that differ only in case, or in ' ' against '-', collide. */
  lemma PersonLinkCollides()
    ensures PersonLink("Ann Lee", 1900) == PersonLink("ann-lee", 1900)
    ensures "Ann Lee" != "ann-lee"
  {
    assert ToLowerAscii("Ann Lee") == "ann lee";
    assert ToLowerAscii("ann-lee") == "ann-lee";
    assert Replace("ann lee", ' ', '-') == "ann-lee";
    assert Replace("ann-lee", ' ', '-') == "ann-lee";
  }

  /** `getPersonClass`: the class of a person's name link. */
  function PersonClass(p: Person): (cls: string)
    ensures cls == "has-text-danger" <==> p.sex == "f"
    ensures cls == "" <==> p.sex != "f"
  {
    if p.sex == "f" then "has-text-danger" else ""
  }

  /** `j` is the position of the first person in `people` called `name`. */
  predicate IsFirstNamed(people: seq<Person>, name: string, j: int)
  {
    && 0 <= j < |people|
    && people[j].name == name
    && forall k :: 0 <= k < j ==> people[k].name != name
  }

  /** The position of the first person called `name`, if any. */
  function FirstNamed(people: seq<Person>, name: string): (r: Option<nat>)
    ensures r.Some? ==> IsFirstNamed(people, name, r.value)
    ensures r.None? ==> forall j :: 0 <= j < |people| ==> people[j].name != name
  {
    if people == [] then None
    else if people[0].name == name then Some(0)
    else match FirstNamed(people[1..], name)
      case None => None
      case Some(k) => Some(k + 1)
  }

  /**
   * `people.find(q => q.name === key)`: the first person whose name equals `key`. When `key`
   * is `undefined` no name is equal to it, so nothing is found.
   */
  function Find(people: seq<Person>, key: Option<string>): (r: Option<Person>)
    ensures r.None? <==> forall j :: 0 <= j < |people| ==> Some(people[j].name) != key
    ensures r.Some? ==> r.value in people && key == Some(r.value.name)
  {
    match key
    case None => None
    case Some(name) =>
      match FirstNamed(people, name)
      case None => None
      case Some(j) => Some(people[j])
  }

  /** What `Find` returns: the first match, absent exactly when no person has the name sought. */
  lemma FindIsFirstMatch(people: seq<Person>, key: Option<string>)
    ensures Find(people, key).None? <==> forall j :: 0 <= j < |people| ==> Some(people[j].name) != key
    ensures Find(people, key).Some? ==>
      key.Some? && exists j :: IsFirstNamed(people, key.value, j) && Find(people, key).value == people[j]
  {
    if key.Some? {
      var r := FirstNamed(people, key.value);
      if r.Some? {
        assert Some(people[r.value].name) == key;
      }
    }
  }

  /** The record built for one person by the `people.map` callback. */
  function ResolveOne(people: seq<Person>, p: Person): (r: ResolvedPerson)
    ensures r.person == p
    ensures ' ' !in r.slug && r.slug != ""
    ensures r.mother.None? <==> forall j :: 0 <= j < |people| ==> Some(people[j].name) != p.motherName
    ensures r.mother.Some? ==> r.mother.value in people && p.motherName == Some(r.mother.value.name)
    ensures r.father.None? <==> forall j :: 0 <= j < |people| ==> Some(people[j].name) != p.fatherName
    ensures r.father.Some? ==> r.father.value in people && p.fatherName == Some(r.father.value.name)
  {
    PersonLinkNoSpace(p.name, p.born);
    ResolvedPerson(p, Find(people, p.motherName), Find(people, p.fatherName), PersonLink(p.name, p.born))
  }

  /** `peopleWithParent`: one resolved record per person, in the same order. */
  function Resolve(people: seq<Person>): (r: seq<ResolvedPerson>)
    ensures |r| == |people|
    ensures forall i :: 0 <= i < |r| ==> r[i].person == people[i]
  {
    seq(|people|, i requires 0 <= i < |people| => ResolveOne(people, people[i]))
  }

  /**
   * Each resolved record keeps the person, carries the person's slug, and its mother is the first
   * person named `motherName`; she is absent exactly when nobody has that name (in particular when
   * `motherName` is absent), and when present she is in the list and has the name stored.
   */
  lemma ResolvedMother(people: seq<Person>, i: int)
    requires 0 <= i < |people|
    ensures var rp := Resolve(people)[i];
      && rp.person == people[i]
      && rp.slug == PersonLink(people[i].name, people[i].born)
      && (rp.mother.None? <==> forall j :: 0 <= j < |people| ==> Some(people[j].name) != people[i].motherName)
      && (rp.mother.Some? ==>
            && people[i].motherName == Some(rp.mother.value.name)
            && rp.mother.value in people
            && exists j :: IsFirstNamed(people, rp.mother.value.name, j) && rp.mother.value == people[j])
  {
    FindIsFirstMatch(people, people[i].motherName);
  }

  /** The same for the father, over `fatherName`. */
  lemma ResolvedFather(people: seq<Person>, i: int)
    requires 0 <= i < |people|
    ensures var rp := Resolve(people)[i];
      && rp.person == people[i]
      && rp.slug == PersonLink(people[i].name, people[i].born)
      && (rp.father.None? <==> forall j :: 0 <= j < |people| ==> Some(people[j].name) != people[i].fatherName)
      && (rp.father.Some? ==>
            && people[i].fatherName == Some(rp.father.value.name)
            && rp.father.value in people
            && exists j :: IsFirstNamed(people, rp.father.value.name, j) && rp.father.value == people[j])
  {
    FindIsFirstMatch(people, people[i].fatherName);
  }

  /** The slugs of the worked example below, and of the route "/people/b-1870". */
  lemma PersonLinkExample()
    ensures PersonLink("A", 1900) == "a-1900"
    ensures PersonLink("B", 1870) == "b-1870"
  {
    assert NatToDecimal(1900) == "1900" by {
      assert NatToDecimal(19) == "19";
      assert NatToDecimal(190) == "190";
    }
    assert NatToDecimal(1870) == "1870" by {
      assert NatToDecimal(18) == "18";
      assert NatToDecimal(187) == "187";
    }
    assert ToLowerAscii("A") == "a";
    assert ToLowerAscii("B") == "b";
    assert Replace("a", ' ', '-') == "a";
    assert Replace("b", ' ', '-') == "b";
  }

  /**
   * A two-person family: A, born 1900, whose mother is B, and B, born 1870.
   * A's mother resolves to B's record and A's slug is "a-1900"; B has neither parent.
   */
  lemma ResolveExample()
    ensures var a := Person("A", "m", 1900, None, Some("B"), None);
      var b := Person("B", "f", 1870, None, None, None);
      var r := Resolve([a, b]);
      && r[0].mother == Some(b) && r[0].father == None && r[0].slug == "a-1900"
      && r[1].mother == None && r[1].father == None && r[1].slug == "b-1870"
  {
    var a := Person("A", "m", 1900, None, Some("B"), None);
    var b := Person("B", "f", 1870, None, None, None);
    assert FirstNamed([a, b], "B") == Some(1) by {
      assert [a, b][1..] == [b];
    }
    PersonLinkExample();
  }
}
