/**
 * What the People page shows for given state: which status block (loader, error,
 * "no people" message, table), and for every table row its key, its highlight,
 * its name link and its Mother and Father cells. Also the state the page holds
 * before, during and after the fetch, as plain values.
 */
module PeopleView {
  import opened Wrappers
  import opened JsStrings
  import opened People

  /** The message stored when the fetch fails. */
  const FetchErrorMessage: string := "Something went wrong"

  const NoPeopleMessage: string := "There are no people on the server"

  /** A table cell: a link to a route with its text and class, or plain text. */
  datatype Cell = LinkCell(target: string, text: string, cls: string) | TextCell(text: string)

  /** One rendered table row. */
  datatype Row = Row(
    key: string,
    cls: string,
    name: Cell,
    sex: string,
    born: string,
    died: string,
    mother: Cell,
    father: Cell)

  /** The blocks inside the page's box: each is absent or present. */
  datatype PageView = PageView(
    loader: bool,
    error: Option<string>,
    emptyMessage: Option<string>,
    table: Option<seq<Row>>)

  /**
   * `x || ''` for an optional string: absent becomes "". This is `personName || ''` for the route
   * parameter, and it is also the text React shows for a value that may be `undefined`.
   */
  function OrEmpty(x: Option<string>): (r: string)
    ensures x.None? ==> r == ""
    ensures x.Some? ==> r == x.value
  {
    match x
    case None => ""
    case Some(s) => s
  }

  /** `{person.died}`: nothing when the year is absent, otherwise text that reads back as the year. */
  function DiedText(died: Option<int>): (r: string)
    ensures died.None? <==> r == ""
    ensures died.Some? ==> IsDecimalOf(r, died.value)
  {
    match died
    case None => ""
    case Some(y) => IntDecimalRoundTrip(y); IntToDecimal(y)
  }

  /** `name || '-'`: the stored parent name, or '-' when it is absent or empty. */
  function NameOrDash(name: Option<string>): (r: string)
    ensures r == "-" <==> name.None? || name.value == "" || name.value == "-"
    ensures name.Some? && name.value != "" ==> r == name.value
  {
    match name
    case None => "-"
    case Some(s) => if s == "" then "-" else s
  }

  /** The row's class: highlighted when the route parameter is the row's slug. */
  function RowClass(selected: string, rp: ResolvedPerson): (cls: string)
    ensures cls == "has-background-warning" <==> selected == rp.slug
    ensures cls == "" <==> selected != rp.slug
  {
    if selected == rp.slug then "has-background-warning" else ""
  }

  /**
   * The Mother cell: a `has-text-danger` link to the mother's slug if she was found, showing the
   * stored mother's name; otherwise that name as text, or '-' when it is absent or empty.
   */
  function MotherCell(rp: ResolvedPerson): (c: Cell)
    ensures c.LinkCell? <==> rp.mother.Some?
    ensures rp.mother.Some? ==>
      c.target == PersonLink(rp.mother.value.name, rp.mother.value.born) && c.cls == "has-text-danger"
    ensures c.LinkCell? ==> c.target != "" && ' ' !in c.target
    ensures rp.mother.Some? && rp.person.motherName == Some(rp.mother.value.name) ==> c.text == rp.mother.value.name
    ensures c.TextCell? ==> c.text != "" && (c.text == "-" || rp.person.motherName == Some(c.text))
  {
    match rp.mother
    case Some(m) =>
      PersonLinkNoSpace(m.name, m.born);
      LinkCell(PersonLink(m.name, m.born), OrEmpty(rp.person.motherName), "has-text-danger")
    case None => TextCell(NameOrDash(rp.person.motherName))
  }

  /** The Father cell: the same over the father, with no class on the link. */
  function FatherCell(rp: ResolvedPerson): (c: Cell)
    ensures c.LinkCell? <==> rp.father.Some?
    ensures rp.father.Some? ==>
      c.target == PersonLink(rp.father.value.name, rp.father.value.born) && c.cls == ""
    ensures c.LinkCell? ==> c.target != "" && ' ' !in c.target
    ensures rp.father.Some? && rp.person.fatherName == Some(rp.father.value.name) ==> c.text == rp.father.value.name
    ensures c.TextCell? ==> c.text != "" && (c.text == "-" || rp.person.fatherName == Some(c.text))
  {
    match rp.father
    case Some(f) =>
      PersonLinkNoSpace(f.name, f.born);
      LinkCell(PersonLink(f.name, f.born), OrEmpty(rp.person.fatherName), "")
    case None => TextCell(NameOrDash(rp.person.fatherName))
  }

  /**
   * One `<tr>` of the table body: keyed by the slug, highlighted when `selected` is the slug, a
   * name link to the person's own slug, the Born cell reading back as the year, the Died cell
   * empty exactly when there is no year of death, and a link in a parent cell exactly when that
   * parent was found.
   */
  function RenderRow(selected: string, rp: ResolvedPerson): (r: Row)
    ensures r.key == rp.slug
    ensures r.cls == "has-background-warning" <==> selected == rp.slug
    ensures r.name == LinkCell(PersonLink(rp.person.name, rp.person.born), rp.person.name, PersonClass(rp.person))
    ensures r.sex == rp.person.sex
    ensures IsDecimalOf(r.born, rp.person.born)
    ensures r.died == "" <==> rp.person.died.None?
    ensures rp.person.died.Some? ==> IsDecimalOf(r.died, rp.person.died.value)
    ensures r.mother.LinkCell? <==> rp.mother.Some?
    ensures r.father.LinkCell? <==> rp.father.Some?
  {
    var p := rp.person;
    IntDecimalRoundTrip(p.born);
    Row(rp.slug, RowClass(selected, rp),
        LinkCell(PersonLink(p.name, p.born), p.name, PersonClass(p)),
        p.sex, IntToDecimal(p.born), DiedText(p.died),
        MotherCell(rp), FatherCell(rp))
  }

  /**
   * The table body: one row per resolved person, in the same order. Row i is the row of record i,
   * so every cell of it comes from that record; each row is keyed and highlighted by its slug.
   */
  function RenderRows(selected: string, rows: seq<ResolvedPerson>): (r: seq<Row>)
    ensures |r| == |rows|
    ensures forall i :: 0 <= i < |r| ==> r[i] == RenderRow(selected, rows[i])
    ensures forall i :: 0 <= i < |r| ==>
      && r[i].key == rows[i].slug
      && r[i].name.text == rows[i].person.name
      && (r[i].cls == "has-background-warning" <==> selected == rows[i].slug)
  {
    seq(|rows|, i requires 0 <= i < |rows| => RenderRow(selected, rows[i]))
  }

  /**
   * The box of the page for the current `loading`, `errorMessage`, `people` and route parameter:
   * never blank, and when the table shows it has one row per person, keyed by that person's slug.
   */
  function Render(loading: bool, errorMessage: string, people: seq<Person>, personName: Option<string>): (v: PageView)
    ensures v.loader || v.error.Some? || v.emptyMessage.Some? || v.table.Some?
    ensures v.table.Some? <==> |people| != 0
    ensures v.table.Some? ==> v.table.value == RenderRows(OrEmpty(personName), Resolve(people))
    ensures v.table.Some? ==>
      && |v.table.value| == |people|
      && forall i :: 0 <= i < |people| ==> v.table.value[i].key == PersonLink(people[i].name, people[i].born)
  {
    PageView(
      loading,
      if errorMessage != "" && !loading then Some(errorMessage) else None,
      if !loading && errorMessage == "" && |people| == 0 then Some(NoPeopleMessage) else None,
      if |people| != 0 then Some(RenderRows(OrEmpty(personName), Resolve(people))) else None)
  }

  /**
   * The loader, the error and the "no people" message are mutually exclusive: the loader shows
   * exactly while loading, the error exactly when there is a message and loading is over, the
   * "no people" message exactly when loading is over with no message and no people.
   */
  lemma StatusBlocksExclusive(loading: bool, errorMessage: string, people: seq<Person>, personName: Option<string>)
    ensures var v := Render(loading, errorMessage, people, personName);
      && (v.loader <==> loading)
      && (v.error.Some? <==> errorMessage != "" && !loading)
      && (v.error.Some? ==> v.error.value == errorMessage)
      && (v.emptyMessage.Some? <==> !loading && errorMessage == "" && |people| == 0)
      && !(v.loader && v.error.Some?)
      && !(v.loader && v.emptyMessage.Some?)
      && !(v.error.Some? && v.emptyMessage.Some?)
      && !(v.emptyMessage.Some? && v.table.Some?)
  {
  }

  /** The table shows exactly when there are people, whatever `loading` and the error are. */
  lemma TableIndependentOfLoading(loading: bool, errorMessage: string, people: seq<Person>, personName: Option<string>)
    ensures Render(loading, errorMessage, people, personName).table.Some? <==> |people| != 0
    ensures Render(loading, errorMessage, people, personName).table
         == Render(!loading, "", people, personName).table
  {
  }

  /** Once loading is over the box is never blank. */
  lemma NeverBlankAfterLoading(errorMessage: string, people: seq<Person>, personName: Option<string>)
    ensures var v := Render(false, errorMessage, people, personName);
      v.error.Some? || v.emptyMessage.Some? || v.table.Some?
  {
  }

  /** Row `i` is highlighted exactly when the route parameter equals that person's slug. */
  lemma RowHighlight(loading: bool, errorMessage: string, people: seq<Person>, personName: Option<string>, i: int)
    requires 0 <= i < |people|
    ensures var rows := Render(loading, errorMessage, people, personName).table.value;
      && |rows| == |people|
      && (rows[i].cls == "has-background-warning" <==> OrEmpty(personName) == PersonLink(people[i].name, people[i].born))
      && rows[i].key == PersonLink(people[i].name, people[i].born)
  {
    ResolvedMother(people, i);
  }

  /** Without a route parameter no row is highlighted, because no slug is empty. */
  lemma NoParamNoHighlight(loading: bool, errorMessage: string, people: seq<Person>, i: int)
    requires 0 <= i < |people|
    ensures Render(loading, errorMessage, people, None).table.value[i].cls == ""
  {
    RowHighlight(loading, errorMessage, people, None, i);
    PersonLinkNoSpace(people[i].name, people[i].born);
  }

  /** A route naming a person's slug highlights that person's row. */
  lemma SelectedPersonHighlighted(loading: bool, errorMessage: string, people: seq<Person>, i: int)
    requires 0 <= i < |people|
    ensures var personName := Some(PersonLink(people[i].name, people[i].born));
      Render(loading, errorMessage, people, personName).table.value[i].cls == "has-background-warning"
  {
    RowHighlight(loading, errorMessage, people, Some(PersonLink(people[i].name, people[i].born)), i);
  }

  /** The name cell links to the person's own slug, shows the name, and is styled as female exactly when sex is "f". */
  lemma NameCell(loading: bool, errorMessage: string, people: seq<Person>, personName: Option<string>, i: int)
    requires 0 <= i < |people|
    ensures var rows := Render(loading, errorMessage, people, personName).table.value;
      var rp := Resolve(people)[i];
      && |rows| == |people|
      && rows[i].name.LinkCell?
      && rows[i].name.target == rp.slug
      && rows[i].name.text == people[i].name
      && (rows[i].name.cls == "has-text-danger" <==> people[i].sex == "f")
  {
    ResolvedMother(people, i);
  }

  /**
   * The Mother cell of row `i`: when the mother was found, a link whose target is the slug of the
   * row of the first person with that name and whose text is that name; otherwise the stored
   * mother's name, or '-' when it is absent or empty.
   */
  lemma MotherCellShows(people: seq<Person>, personName: Option<string>, i: int)
    requires 0 <= i < |people|
    ensures var rows := RenderRows(OrEmpty(personName), Resolve(people));
      var rp := Resolve(people)[i];
      && (rp.mother.Some? ==>
            exists j :: IsFirstNamed(people, rp.mother.value.name, j) &&
              rows[i].mother == LinkCell(Resolve(people)[j].slug, people[j].name, "has-text-danger"))
      && (rp.mother.None? ==> rows[i].mother == TextCell(NameOrDash(people[i].motherName)))
  {
    ResolvedMother(people, i);
    var rp := Resolve(people)[i];
    if rp.mother.Some? {
      var j :| IsFirstNamed(people, rp.mother.value.name, j) && rp.mother.value == people[j];
      ResolvedMother(people, j);
    }
  }

  /** The same for the Father cell, whose link has no class. */
  lemma FatherCellShows(people: seq<Person>, personName: Option<string>, i: int)
    requires 0 <= i < |people|
    ensures var rows := RenderRows(OrEmpty(personName), Resolve(people));
      var rp := Resolve(people)[i];
      && (rp.father.Some? ==>
            exists j :: IsFirstNamed(people, rp.father.value.name, j) &&
              rows[i].father == LinkCell(Resolve(people)[j].slug, people[j].name, ""))
      && (rp.father.None? ==> rows[i].father == TextCell(NameOrDash(people[i].fatherName)))
  {
    ResolvedFather(people, i);
    var rp := Resolve(people)[i];
    if rp.father.Some? {
      var j :| IsFirstNamed(people, rp.father.value.name, j) && rp.father.value == people[j];
      ResolvedFather(people, j);
    }
  }

  /** The state the page holds: the fetched people, the error message and the loading flag. */
  datatype PageState = PageState(people: seq<Person>, errorMessage: string, loading: bool)

  /** What the page holds before the fetch starts. */
  function InitialState(): (s: PageState)
    ensures s.people == [] && s.errorMessage == "" && !s.loading
  {
    PageState([], "", false)
  }

  /** Starting the fetch sets `loading`. */
  function StartLoading(s: PageState): (t: PageState)
    ensures t.loading && t.people == s.people && t.errorMessage == s.errorMessage
  {
    s.(loading := true)
  }

  /** How the fetch ends: with the list of people, or with a failure of any kind. */
  datatype FetchOutcome = Fetched(people: seq<Person>) | FetchFailed

  /** The end of the fetch: store the people or the fixed error message, then clear `loading`. */
  function Settle(s: PageState, outcome: FetchOutcome): (t: PageState)
    ensures !t.loading
    ensures outcome.Fetched? ==> t.people == outcome.people && t.errorMessage == s.errorMessage
    ensures outcome.FetchFailed? ==> t.people == s.people && t.errorMessage == FetchErrorMessage
  {
    match outcome
    case Fetched(people) => s.(people := people, loading := false)
    case FetchFailed => s.(errorMessage := FetchErrorMessage, loading := false)
  }

  /** The first paint, before the fetch has started, shows the "no people" message and nothing else. */
  lemma FirstPaintShowsNoPeople(personName: Option<string>)
    ensures var s := InitialState();
      Render(s.loading, s.errorMessage, s.people, personName) == PageView(false, None, Some(NoPeopleMessage), None)
  {
  }

  /** While the fetch runs only the loader shows. */
  lemma LoadingShowsOnlyLoader(personName: Option<string>)
    ensures var s := StartLoading(InitialState());
      Render(s.loading, s.errorMessage, s.people, personName) == PageView(true, None, None, None)
  {
  }

  /**
   * Once the fetch ends exactly one block shows: the fixed error message on failure, the
   * "no people" message when the list is empty, the table otherwise.
   */
  lemma SettledShowsOneBlock(outcome: FetchOutcome, personName: Option<string>)
    ensures var s := Settle(StartLoading(InitialState()), outcome);
      var v := Render(s.loading, s.errorMessage, s.people, personName);
      && !v.loader
      && (outcome.FetchFailed? ==> v == PageView(false, Some(FetchErrorMessage), None, None))
      && (outcome == Fetched([]) ==> v == PageView(false, None, Some(NoPeopleMessage), None))
      && (outcome.Fetched? && outcome.people != [] ==>
            v.error.None? && v.emptyMessage.None? && v.table.Some? && |v.table.value| == |outcome.people|)
  {
  }
}
