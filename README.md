# ProductList: a verified model of the product inventory list

`ProductList` (bkt.js) is a React component that shows an inventory of
products. It keeps these pieces of state:

- the list of products, seeded from a data file;
- a draft record for the "add product" form;
- a flag that says whether the form's modal is open;
- a search term and a selected category.

On every render the component sorts the list in place by product code
(`maSanPham`). It then keeps the records whose lower-cased name contains the
lower-cased search term and whose category equals the selected one (any
category when none is selected). It shows those records as a table, or a
"no results" notice when there are none. Intake dates are shown as
`DD/MM/YYYY`. Submitting the form appends the draft as a new record. The
record's display index `stt` is the list length + 1 and its price is parsed
from text. The submit then closes the modal and empties the draft.

The Dafny model:

- `text.dfy` (module `Text`): the string operations the component uses.
  These are `toLowerCase` (over ASCII), `includes`, `split`, and the order
  used to compare codes.
- `catalog.dfy` (module `Catalog`): the product record, and the property
  `Numbered` that the display indexes are exactly 1..n, so that they can
  serve as row keys. The seed list need not be numbered; when it is,
  submitting a record and sorting keep it numbered.
- `sorting.dfy` (module `Sorting`): `SortByCode`, the reference definition
  of the sorted view. Its lemmas show that it is sorted, a permutation of
  its input, stable, and the only result any stable sort by code can give.
- `filtering.dfy` (module `Filtering`): the search and category filter, and
  the choice between the table and the notice.
- `dates.dfy` (module `Dates`): `formatDate`.
- `product_list.dfy` (module `Component`): class `ProductList`. It holds the
  component's state and one method per handler. `SortProducts` is the
  in-place sort, written as an insertion sort of adjacent swaps on the list
  field. `Render` is one render pass.

Assumptions where the source calls into the platform:

- `localeCompare` is modelled as lexicographic order by code point
  (`LexLeq`; a Dafny `char` is a Unicode scalar value). The lemmas show
  this is a total order. So the displayed order is lexicographic by code.
- `toLowerCase` is modelled as ASCII lower-casing.
- `Array.prototype.sort` has been stable since ES2019, and
  `Sorting.SortByCodeCharacterized` proves that every stable sort by code
  returns `SortByCode`. So the model's insertion sort and the engine's sort
  agree.

`soLuong` is copied from the form as typed; only `gia` goes through
`parseFloat`. So `Product.quantity` is a string.

## Model

| member | source | states |
|---|---|---|
| `Text.ToLower` | bkt.js:72 | lower-casing keeps the length, maps each upper-case ASCII letter to its lower-case letter (code + 32), leaves no upper-case ASCII letter and keeps every other character |
| `Text.ToLowerIdempotent` | bkt.js:72 | lower-casing an already lower-cased string changes nothing |
| `Text.Contains` | bkt.js:72 | `includes`: the needle occurs at the front of the haystack or further on. No ensures of its own; `Text.ContainsIff` and `Text.ContainsEmpty` state its behaviour |
| `Text.ContainsIff` | bkt.js:72 | `includes` holds exactly when the needle occurs at some position of the haystack |
| `Text.ContainsEmpty` | bkt.js:72 | the empty search term occurs in every name |
| `Text.Split` | bkt.js:67 | `split` yields at least one part and no part contains the separator |
| `Text.JoinSplit` | bkt.js:67 | joining the parts of a split with the separator gives back the string |
| `Text.SplitJoin` | bkt.js:67 | splitting separator-free parts joined by the separator gives back the parts |
| `Text.LexLeq` | bkt.js:21 | the comparator `a.maSanPham.localeCompare(b.maSanPham)` as code-point lexicographic order. No ensures of its own; the four lemmas below prove it a total order |
| `Text.LexLeqReflexive` | bkt.js:21 | every code compares equal to itself |
| `Text.LexLeqAntisymmetric` | bkt.js:21 | two codes that sort no later than each other are equal |
| `Text.LexLeqTransitive` | bkt.js:21 | the code order is transitive |
| `Text.LexLeqTotal` | bkt.js:21 | any two codes are comparable |
| `Catalog.NumberedDistinct` | bkt.js:125-126 | when the indexes are 1..n, no two records share an index, so `stt` is a valid row key |
| `Catalog.NumberedAppend` | bkt.js:47-52 | appending a record with index length + 1 keeps the indexes exactly 1..n |
| `Sorting.Insert` | bkt.js:20-22 | inserting adds exactly that record to the list's multiset |
| `Sorting.SortByCode` | bkt.js:20-22 | the sorted view is a permutation of the list |
| `Sorting.InsertSorted` | bkt.js:20-22 | inserting into a sorted list keeps it sorted by code |
| `Sorting.SortByCodeSorted` | bkt.js:20-22 | the sorted view is non-decreasing by code |
| `Sorting.InsertKeepCode` | bkt.js:20-22 | inserting a record puts it after the records of its own code and leaves other codes alone |
| `Sorting.SortByCodeStable` | bkt.js:20-22 | the records of each code keep their relative order (stable sort) |
| `Sorting.SortedStableUnique` | bkt.js:20-22 | two sorted lists with the same records, in the same order code by code, are equal |
| `Sorting.SortByCodeCharacterized` | bkt.js:20-22 | any sorted, stable rearrangement of the list is exactly the reference sorted view |
| `Sorting.SortedFixpoint` | bkt.js:20-22 | sorting an already sorted list leaves it unchanged |
| `Sorting.SortByCodeIdempotent` | bkt.js:20-22 | re-sorting on the next render changes nothing |
| `Sorting.SortByCodeStts` | bkt.js:20-22 | sorting keeps the multiset of display indexes |
| `Sorting.SortKeepsNumbered` | bkt.js:20-22 | sorting keeps the indexes exactly 1..n |
| `Sorting.SwapStep` | bkt.js:20-22 | each swap of the in-place pass moves the pending insertion one place left |
| `Dates.FormatDate` | bkt.js:66-69 | splits on '-' into year, month and day and shows day/month/year. No ensures of its own; the `FormatDate...` lemmas below state its behaviour |
| `Dates.FormatDateWellFormed` | bkt.js:66-69 | `YYYY-MM-DD` with '-'-free parts is shown as `DD/MM/YYYY` |
| `Dates.FormatDateParts` | bkt.js:66-69 | the shown date splits on '/' back into day, month and year |
| `Dates.FormatDateIgnoresExtraParts` | bkt.js:67-68 | parts after the third '-'-separated one are dropped |
| `Dates.FormatDateNoSeparator` | bkt.js:66-69 | a date without '-' shows as `undefined/undefined/<date>` |
| `Dates.FormatDateExample` | bkt.js:66-69 | "2024-03-07" is shown as "07/03/2024" |
| `Filtering.MatchesName` | bkt.js:72 | the lower-cased name includes the lower-cased search term. No ensures of its own; `Filtering.FilterCaseInsensitive` and `Text.ContainsEmpty` state its behaviour |
| `Filtering.MatchesCategory` | bkt.js:73 | no category selected (the empty string), or the record's category equals the selected one. No ensures of its own; `Filtering.FilterNoCriteria` and `Filtering.FilterIntersects` use it |
| `Filtering.Matches` | bkt.js:72-74 | the filter callback: both conditions hold. No ensures of its own; `Filtering.FilterMembership` states what it selects |
| `Filtering.FilterProducts` | bkt.js:71-75 | the filtered list is no longer than the list and every record in it matches |
| `Filtering.FilterCounts` | bkt.js:71-75 | a matching record occurs as often as in the list, and a record that does not match never occurs |
| `Filtering.FilterMembership` | bkt.js:71-75 | a record is shown exactly when it is in the list and matches both filters |
| `Filtering.FilterConcat` | bkt.js:71-75 | filtering keeps relative order: the filter of a concatenation is the concatenation of the filters |
| `Filtering.FilterAllMatch` | bkt.js:71-75 | a list whose records all match is shown whole |
| `Filtering.FilterNoCriteria` | bkt.js:72-73 | an empty search term and no selected category show the whole sorted list unchanged |
| `Filtering.FilterIntersects` | bkt.js:72-74 | filtering by term and category equals filtering by term, then by category |
| `Filtering.FilterCaseInsensitive` | bkt.js:72 | searching for a term or its lower-case form shows the same records |
| `Filtering.FilterSorted` | bkt.js:71-75 | filtering a list sorted by code leaves it sorted by code, so the shown matches are in ascending code order |
| `Filtering.RowOf` | bkt.js:125-133 | one table row: index, code, name, category, quantity and price of the record, and its date through `formatDate`. No ensures of its own; `Filtering.RenderList` states the rows it builds |
| `Filtering.RenderList` | bkt.js:110-139 | the notice is shown exactly when the filtered list is empty, otherwise one row per record, in order, with the date formatted |
| `Filtering.NoResultsIffNoMatch` | bkt.js:110-139 | the notice is shown exactly when no record of the list matches the filters |
| `Component.EmptyDraft` | bkt.js:8-15 | the empty draft has exactly the six form fields, all empty strings |
| `Component.ProductList.constructor` | bkt.js:6-18 | the initial state: the seed list, the modal closed, an empty draft, no search term, no category |
| `Component.ProductList.HandleShow` | bkt.js:24 | opens the modal and changes nothing else |
| `Component.ProductList.HandleClose` | bkt.js:25 | closes the modal and changes nothing else, the draft included |
| `Component.ProductList.HandleChange` | bkt.js:27-33 | sets draft field `name` to `value` and leaves every other field unchanged |
| `Component.ProductList.HandleSearchChange` | bkt.js:35-37 | sets the search term and nothing else |
| `Component.ProductList.HandleCategoryChange` | bkt.js:39-41 | sets the selected category and nothing else |
| `Component.ProductList.HandleSubmit` | bkt.js:43-64 | the list grows by one and earlier records are unchanged. The new last record has index old length + 1, the draft's code, name, category, quantity and date, and the parsed price. The modal is closed, the draft is empty, and 1..n numbering is kept |
| `Component.ProductList.SortProducts` | bkt.js:20-22 | sorts the list in place to `SortByCode` of the old list: sorted by code, a permutation, numbering kept |
| `Component.ProductList.MoveLeft` | bkt.js:20-22 | one insertion pass: the prefix becomes the old sorted prefix with record `i` inserted; the rest is unchanged |
| `Component.ProductList.Render` | bkt.js:20-139 | sorts the list in place and returns the table or notice for the filtered sorted list. The notice is shown exactly when no record matches, and the table's rows are in ascending code order |

## Left out

- JSX markup and the react-bootstrap `Table`, `Modal` and `Form` components are not modelled. They render state and hold no logic.
- `db.json` is not part of this model. The seed list is the constructor's parameter.
- The category list from `db.json` only feeds the options of the two dropdowns, so it is not modelled.
- `parseFloat` is not interpreted. A parsed price is the value `ParseFloat(text)`, and seed prices are `Amount(real)`. Floating point is out of scope.
- `toLocaleString` and the currency suffix on the price column are not modelled, because locale formatting is out of scope. A row carries the price value.
- `localeCompare` collation is replaced by lexicographic order by code point.
- Seed records come from `db.json`, where `soLuong` may be a number. The model takes every quantity as text. Nothing computes with it; it is only displayed.
- `toLowerCase` is reduced to ASCII letters. Unicode case mapping is out of scope.
- The browser's `required`, `type="number"` and `type="date"` constraints are not modelled, because the browser enforces them, not the component.
- React state scheduling and event objects are not modelled. Each handler is one atomic update, and its event's `name` and `value` are parameters.
- Component.ProductList.HandleSubmit: a draft property whose name is not one of the six form fields is not copied into the new record. The source's object spread would copy it, but nothing ever reads it.
- Component.ProductList.Render: the returned view covers the list area only. The modal form, the input values and the dropdown options are rendering.
