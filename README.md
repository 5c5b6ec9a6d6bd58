# People table: a verified model

This project models the logic of the `People` page of a small React application. The page fetches a list of person records and shows them in a table. Each person has a name, sex, year of birth, optional year of death and optional mother's and father's names. The model covers the parts of `src/components/People/People.tsx` that decide what the page shows:

- **the slug** (`getPersonLink`): the lowercased name, split on `' '` and joined with `'-'`, then `'-'` and the year of birth. It is used as the row key, the link target and the route parameter that selects a row.
- **the name class** (`getPersonClass`): `has-text-danger` exactly for `sex === 'f'`.
- **parent resolution** (the `people.map` inside the second effect): for every person, the first person whose `name` equals `motherName`, the first whose `name` equals `fatherName`, and the person's slug.
- **the render decisions**: which status block shows (loader, error, "no people" message, table), which row is highlighted, and what the name, Mother and Father cells show.
- **the page state around the fetch**, as plain values. The state starts empty, `loading` is set when the fetch starts, and when it ends the people or the fixed message `Something went wrong` are stored and `loading` is cleared.

Modules:

- `Wrappers`: `Option`, which stands for a value that may be `undefined`.
- `JsStrings`: the JavaScript string operations the slug uses, over `seq<char>`. These are ASCII `toLowerCase`, `split` on one character, `join`, and the decimal text of an integer.
- `People`: `Person`, `ResolvedPerson`, `PersonLink`, `PersonClass`, `FirstNamed`, `Find` and `Resolve`.
- `PeopleView`: cells, rows, the page view, `Render`, and the page state (`InitialState`, `StartLoading`, `Settle`).

`PersonLink` is defined the way the source computes it, with split then join. Its contract proves that this equals replacing every space by a hyphen, one for one.

Behaviour of the code worth noting:

- The table shows whenever the list of people is non-empty, whatever `loading` and the error message are. So the status conditions alone do not make the blocks exclusive. In the three modelled states (initial, loading, settled) only one block shows: `FirstPaintShowsNoPeople`, `LoadingShowsOnlyLoader` and `SettledShowsOneBlock`.
- The first paint comes before the fetch has started, so it shows "There are no people on the server".
- An unresolved parent cell shows `'-'` when the stored name is absent and also when it is empty, because of `||`.
- `sex` is a string compared with `'f'`.

## Model

| member | source | states |
|---|---|---|
| `JsStrings.ToLowerAscii` | src/components/People/People.tsx:12 | `toLowerCase` on ASCII keeps the length, leaves no upper-case ASCII letter, changes only upper-case letters, and has a space exactly where the input has one |
| `JsStrings.LowerMatchesAlphabet` | src/components/People/People.tsx:12 | every upper-case ASCII letter becomes the lower-case letter at the same place in the alphabet |
| `JsStrings.ToLowerAsciiIdempotent` | src/components/People/People.tsx:12 | lowercasing a lowercased name changes nothing |
| `JsStrings.Split` | src/components/People/People.tsx:12 | `split(' ')` gives one more piece than there are separators, and no piece contains the separator |
| `JsStrings.JoinSplitIsReplace` | src/components/People/People.tsx:12 | `split(c).join(d)` equals replacing every `c` by `d` one for one, so consecutive spaces become consecutive hyphens |
| `JsStrings.Join` | src/components/People/People.tsx:12 | `join(sep)` of no parts is ""; otherwise it starts with the first part and its length is the parts' total length plus one separator between each pair of neighbours |
| `JsStrings.SplitJoinRoundTrip` | src/components/People/People.tsx:12 | joining the pieces with the separator they were split on gives the original text back |
| `JsStrings.NatToDecimal` | src/components/People/People.tsx:12 | the decimal text of a natural number is non-empty, all digits, with no leading zero |
| `JsStrings.IntToDecimal` | src/components/People/People.tsx:12 | the text `${born}` is non-empty, has no space, starts with '-' exactly for a negative year and with a digit otherwise, and the digits after any sign have no leading zero unless the number is 0 |
| `JsStrings.NatDecimalRoundTrip` | src/components/People/People.tsx:12 | reading the decimal text back gives the number |
| `JsStrings.IntDecimalRoundTrip` | src/components/People/People.tsx:12 | `${n}` is the canonical decimal text of `n` (at least one digit, no leading zero unless 0): the digits of a non-negative `n`, or '-' and the digits of `-n`, reading back as the number |
| `JsStrings.NatToDecimalInjective` | src/components/People/People.tsx:12 | different natural numbers have different decimal texts |
| `JsStrings.IntToDecimalInjective` | src/components/People/People.tsx:12 | different years have different decimal texts |
| `People.PersonLink` | src/components/People/People.tsx:11-12 | the slug equals the ASCII-lowercased name with every ' ' replaced by '-', followed by '-' and the decimal year of birth |
| `People.PersonLinkShape` | src/components/People/People.tsx:11-12 | the slug has one character per name character (a space becomes '-', the others are lowercased) and ends with '-' and the year |
| `People.PersonLinkNoSpace` | src/components/People/People.tsx:11-12 | a slug contains no space and is never empty |
| `People.PersonLinkIgnoresCase` | src/components/People/People.tsx:11-12 | the slug of a lowercased name equals the slug of the name |
| `People.PersonLinkDeterminesBorn` | src/components/People/People.tsx:11-12 | for one name, two slugs are equal exactly when the years of birth are equal |
| `People.PersonLinkCollides` | src/components/People/People.tsx:11-12 | slugs are not unique: "Ann Lee" and "ann-lee" born in the same year get the same slug |
| `People.PersonClass` | src/components/People/People.tsx:8-9 | the name link's class is `has-text-danger` exactly when sex is "f", and empty otherwise |
| `People.FirstNamed` | src/components/People/People.tsx:43-44 | the result is the position of the first person with the name sought; it is absent exactly when no person has that name |
| `People.Find` | src/components/People/People.tsx:43-44 | `find` by name returns nothing exactly when no name equals the key (always so for an absent key); what it returns is in the list and has the key as its name |
| `People.FindIsFirstMatch` | src/components/People/People.tsx:43-44 | `find` by name returns the first person whose name equals the key; it returns nothing exactly when no name equals the key, which includes an absent key |
| `People.ResolveOne` | src/components/People/People.tsx:42-51 | the record for one person keeps the person and has a non-empty slug without spaces; each parent is absent exactly when no one has the stored name, and when present is in the list with that name |
| `People.Resolve` | src/components/People/People.tsx:42-52 | resolution keeps the length and order of the list, and each record keeps its person unchanged |
| `People.ResolvedMother` | src/components/People/People.tsx:42-50 | record i keeps person i and carries that person's slug; its mother is the first person named `motherName`; she is absent exactly when no one has that name; when present she is in the list and her name is the stored `motherName` |
| `People.ResolvedFather` | src/components/People/People.tsx:42-51 | record i keeps person i and carries that person's slug; its father is the first person named `fatherName`, with the same properties as the mother |
| `People.PersonLinkExample` | src/components/People/People.tsx:11-12 | "A" born 1900 has slug "a-1900" and "B" born 1870 has slug "b-1870" |
| `People.ResolveExample` | src/components/People/People.tsx:42-52 | in [A born 1900 with mother "B", B born 1870], A's mother is B's record and A's slug is "a-1900"; B has no parents and slug "b-1870" |
| `PeopleView.OrEmpty` | src/components/People/People.tsx:21 | an absent route parameter (or absent text) becomes "", and a present one is kept |
| `PeopleView.NameOrDash` | src/components/People/People.tsx:123 | an unresolved parent cell's text is the stored name when that is present and non-empty, and '-' otherwise |
| `PeopleView.DiedText` | src/components/People/People.tsx:112 | the Died cell is "" exactly when there is no year of death; otherwise it is the canonical decimal text of the year (no leading zero), reading back as the year |
| `PeopleView.MotherCell` | src/components/People/People.tsx:113-124 | the Mother cell is a link exactly when the mother was found; the link is `has-text-danger`, targets her slug (non-empty, no space) and shows her name; otherwise the text is never empty: the stored name or '-' |
| `PeopleView.FatherCell` | src/components/People/People.tsx:126-136 | the same for the Father cell, whose link has no class |
| `PeopleView.RenderRow` | src/components/People/People.tsx:93-137 | a row is keyed by the slug, highlighted exactly when the route parameter is the slug, links the name to the person's own slug, has Born and Died cells holding the canonical decimal text of the years (the Died cell empty exactly when there is no year of death), and a parent link exactly when that parent was found |
| `PeopleView.RenderRows` | src/components/People/People.tsx:92-138 | one row per record in the same order; row i is the row of record i (so its Sex, Born, Died, Mother and Father cells are that record's, as `RenderRow` states), keyed by its slug, showing its person's name, and highlighted exactly when the route parameter is its slug |
| `PeopleView.Render` | src/components/People/People.tsx:63-141 | the box is never blank; the table shows exactly when there are people, and then it is the rows of the resolved people under the normalised route parameter, one per person keyed by that person's slug |
| `PeopleView.RowClass` | src/components/People/People.tsx:95-98 | a row has `has-background-warning` exactly when the route parameter equals its slug, and no class otherwise |
| `PeopleView.StatusBlocksExclusive` | src/components/People/People.tsx:63-73 | the loader shows exactly while loading; the error shows exactly when the message is non-empty and loading is over, and it shows that message; the "no people" message shows exactly when loading is over, there is no message and no people; these three exclude each other, and the "no people" message excludes the table |
| `PeopleView.TableIndependentOfLoading` | src/components/People/People.tsx:75 | the table shows exactly when there are people, and neither `loading` nor the error message changes it |
| `PeopleView.NeverBlankAfterLoading` | src/components/People/People.tsx:63-75 | once loading is over, the error, the "no people" message or the table shows |
| `PeopleView.RowHighlight` | src/components/People/People.tsx:92-99 | there is one row per person, row i is keyed by person i's slug, and it is highlighted exactly when the route parameter equals that slug |
| `PeopleView.NoParamNoHighlight` | src/components/People/People.tsx:95-98 | without a route parameter no row is highlighted |
| `PeopleView.SelectedPersonHighlighted` | src/components/People/People.tsx:95-98 | the route parameter equal to a person's slug highlights that person's row |
| `PeopleView.NameCell` | src/components/People/People.tsx:101-108 | the name cell links to the person's own slug, shows the name, and has the female styling exactly when sex is "f" |
| `PeopleView.MotherCellShows` | src/components/People/People.tsx:113-124 | a resolved mother's cell is a `has-text-danger` link to the slug of the row of the first person with her name, and shows that name; an unresolved one shows the stored name, or '-' if it is absent or empty |
| `PeopleView.FatherCellShows` | src/components/People/People.tsx:126-136 | the same for the father's cell, whose link has no class |
| `PeopleView.InitialState` | src/components/People/People.tsx:15-17 | before the fetch there are no people, no error message and no loading |
| `PeopleView.StartLoading` | src/components/People/People.tsx:24 | starting the fetch sets `loading` and changes nothing else |
| `PeopleView.Settle` | src/components/People/People.tsx:28-34 | when the fetch ends `loading` is cleared; on success the people are stored; on failure the message is the fixed "Something went wrong" |
| `PeopleView.FirstPaintShowsNoPeople` | src/components/People/People.tsx:15-17 | with the initial state, before the fetch starts, only the "no people" message shows |
| `PeopleView.LoadingShowsOnlyLoader` | src/components/People/People.tsx:63-75 | while the first fetch runs, only the loader shows |
| `PeopleView.SettledShowsOneBlock` | src/components/People/People.tsx:63-75 | after the fetch exactly one block shows: the fixed error on failure, the "no people" message for an empty list, and otherwise the table with one row per person |

## Left out

- The fetch itself (`getPeople` from the `api` module) is network I/O in a module that is not part of this model. Its result is a parameter (`FetchOutcome`). Every failure is one `FetchFailed`.
- React hooks (`useState`, `useEffect`, `useParams`), re-rendering and the order of asynchronous updates are not modelled. The state and the route parameter are plain inputs. A response that arrives after the page is left is not modelled.
- Whether a render with `loading` still true and the people already stored happens between `setPeople` and `setLoading(false)` depends on React's batching and is not modelled. In such a render the loader and the table would both show.
- The render between `setPeople` and the second effect is not modelled. In it the table condition already sees the new `people` while `peopleWithParents` still holds the old rows. The model always renders `Resolve(people)`, the state once the effect has run.
- Markup is not modelled: headings, table header, `Loader`, and the other CSS classes. The `classNames` library is represented by the class string it yields.
- `NavLink`'s resolution of the `../` prefix and its automatic `active` class are not modelled. Link targets are the bare slugs.
- `toLowerCase` is ASCII only; Unicode case mapping is not modelled.
- `born` and `died` are integers. Non-integer numbers, `NaN` and the exponent notation JavaScript uses for very large numbers are not modelled.
- The `Person` type comes from a `types` module that is not part of this model. Its fields are inferred from their use, and `sex` is a string.
- React's handling of duplicate row keys is not modelled. `PersonLinkCollides` shows that two people can share a slug.
- src/Root.tsx, the static route table, is not modelled because its matching belongs to `react-router-dom`. src/App.tsx is layout only.
