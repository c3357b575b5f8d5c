# QJsonModel in Dafny

A Dafny model of the core of QJsonModel, a Qt item model that shows a JSON
document as an editable two-column (key, value) tree.

The model covers:

- **The tree item** (`QJsonTreeItem`): a node with a key, a stored value
  text, a JSON type and an ordered list of children. It includes the
  static builder `load`, which turns a parsed JSON value into a node
  hierarchy, and the navigation rules `child` and `row`.
- **The adapter** (`QJsonModel`):
  - `index`, `parent`, `rowCount`, `columnCount`;
  - `data`, `setData`, `flags`;
  - `loadJson` with its begin/end reset pair, `json`, `clear`;
  - `genJson`, which turns the tree back into a JSON value.

Modules:

- `Wrappers`: `Option`.
- `JsonValue`: the JSON value type and `QJsonObject::insert`.
- `Decimal`: `QString::number` on array indices.
- `TreeItem`: nodes, `load`, `child`, `row` and addresses.
- `JsonModel`: the adapter.
- `ModelLaws`: laws relating the adapter's operations.
- `RoundTrip`: what survives `genJson(load(v))`.

Representation choices:

- **Parent links as addresses.** Nodes are immutable values, and parent
  links are not stored. A node is named by its address: the child positions
  leading to it from the root, with the root at `[]`. The parent of
  `p + [i]` is `p`, and a node's row is its position under its parent.
  `row()` is modelled twice, and the two are proved equal:
  - `TreeItem.RowOf` gives the position;
  - `TreeItem.Row` runs the source's `QList::indexOf` search over the
    parent's child handles.
- **Leaves store text.** A leaf stores the text of its scalar, as the
  implementation does (`setValue(const QString&)` and
  `value.toVariant().toString()`):
  - strings are stored verbatim;
  - the text of numbers, booleans and null is the function parameter
    `text`, because Qt's number formatting is not part of this model.
- **Type assignment.** A node built by `load` for an object or array
  leaves its type unassigned (`Kind.Unset`); the caller assigns it. Child
  types are assigned inside `load` itself, and the root's by `loadJson`.
- **Objects as association lists.** A JSON object is a list of members.
  `QJsonObject::insert` is modelled as replacing the value of an existing
  name in place, or else appending a new member (Qt places it at its
  key-sorted position; see Left out).
- **Notifications as an event list.** The begin/end reset and dataChanged
  notifications are recorded in an event list on the model state.
- **Parsing as an input.** The parser's result is an input to `LoadJson`:
  `None` for a null document.
- **Qt base-class behaviour.** `hasIndex` and the base class's
  `flags(index)` are not shown in the repository. They are modelled from
  Qt's documented behaviour:
  - `hasIndex` is true for a non-negative row below `rowCount` and a
    non-negative column below `columnCount`;
  - a valid index is selectable and enabled, and an invalid one has no
    flags.

Facts about the source that shape the model:

- Leaves store text, so the round trip turns numbers, booleans and null
  into strings.
- `flags` decides editability from the column and the node type alone.
- `setData` ignores the node type.
- `clear` installs no new root item (see Findings).
- `loadJson` deletes the current root item before installing the new
  tree, so `LoadJson` requires a live root item (`JsonModel.Live`).

## Model

| member | source | states |
|---|---|---|
| `JsonValue.Insert` | qjsonmodel.cpp:385 | inserting under a new name appends one member; inserting under an existing name keeps the name sequence; the name then reads the inserted value; distinct names stay distinct; every member of the result was already there or is the new one |
| `JsonValue.InsertKeepsOtherKeys` | qjsonmodel.cpp:385 | an insert leaves what every other name reads unchanged |
| `JsonValue.InsertAll` | qjsonmodel.cpp:380-387 | the object the insert loop builds has distinct names, at most as many members as were inserted, each one of the inserted members; when the inserted names are already distinct the object is exactly the inserted list, in order |
| `Decimal.FromNat` | qjsonmodel.cpp:125 | the decimal text of an array index is non-empty, all digits, and has no leading zero (it starts with 0 only for index 0) |
| `Decimal.ToNatFromNat` | qjsonmodel.cpp:125 | reading the decimal text back gives the index |
| `Decimal.FromNatInjective` | qjsonmodel.cpp:125 | two indices get the same key text only if they are equal |
| `TreeItem.ChildAt` | qjsonmodel.cpp:48-51 | `child(row)` finds a child exactly for row in [0, childCount), and the child it finds is one of the node's children; otherwise it gives nothing |
| `TreeItem.Load` | qjsonmodel.cpp:102-139 | the built node has key "root"; an object gives one child per member, in member order, keyed by the member name and typed by the member value's kind; an array gives one child per element, keyed by the element's decimal index and typed by its kind; both leave their own type for the caller; a scalar gives a childless leaf typed by its kind and holding its text |
| `TreeItem.LoadChild` | qjsonmodel.cpp:110-116 | a child as the builder's loop finishes it carries the key its parent gives it and the kind of its value |
| `TreeItem.RowOf` | qjsonmodel.cpp:63-70 | a node without a parent has row 0; any other node's row is a position at which its parent's `child` gives back that node |
| `TreeItem.IndexOf` | qjsonmodel.cpp:66 | `QList::indexOf` gives -1 exactly when the handle is absent; otherwise it gives the first position holding it |
| `TreeItem.Row` | qjsonmodel.cpp:63-70 | searching the parent's child list for the node's own handle gives 0 for the root and the node's own position otherwise, which is the row `RowOf` describes |
| `TreeItem.ChildAddresses` | qjsonmodel.cpp:66 | the parent's child list holds one handle per child, pairwise distinct as pointers to distinct items are, and the handle at position i leads to the child `child(i)` returns |
| `TreeItem.NodeAtSnoc` | qjsonmodel.h:63-64 | the node at address p + [i] is child i of the node at p, so a child's parent link is the address without its last step |
| `TreeItem.ParentExists` | qjsonmodel.h:63-64 | every ancestor of an existing node exists |
| `TreeItem.LoadedChildAt` | qjsonmodel.cpp:110-129 | child i of a built node is the builder's child for element or member i, with the key the loop assigns |
| `TreeItem.SubtreesAreLoaded` | qjsonmodel.cpp:102-139 | a built tree has a node at exactly the addresses where the value has an element or member, and each such subtree is what the builder makes of that part of the value |
| `TreeItem.LoadedNodeMirrorsValue` | qjsonmodel.cpp:102-139 | every node of a built tree has the kind of the value at its address, one child per element or member of that value, and, at a leaf, the value's text |
| `TreeItem.LoadedChildKeysDistinct` | qjsonmodel.cpp:107-130 | siblings built from an array, or from an object with distinct names, carry pairwise distinct keys |
| `TreeItem.LoadedSiblingKeysDistinct` | qjsonmodel.cpp:102-139 | sibling keys are distinct under every node of a built tree |
| `JsonModel.RowCount` | qjsonmodel.cpp:314-329 | a parent index in a column other than 0 has no rows; otherwise the row count is the child count of the addressed node, or of the root for the invalid index |
| `JsonModel.Index` | qjsonmodel.cpp:282-296 | `index` gives a cell exactly when the row is below the parent's row count and the column is 0 or 1; the cell belongs to the model, has the requested row and column, and addresses the parent's child at that row |
| `JsonModel.Parent` | qjsonmodel.cpp:298-312 | `parent` gives the invalid index for the invalid index and for a top-level node; otherwise it gives the column-0 cell of the node's parent, from which the node is one step down at its row |
| `JsonModel.Data` | qjsonmodel.cpp:227-251 | a valid cell shows its key in column 0 and its stored text in column 1 for the display role, and its stored text in column 1 for the edit role; every other request gives an invalid variant |
| `JsonModel.SetValueAt` | qjsonmodel.cpp:258-259 | writing text into the addressed node makes that node hold the text, keeping the root's key, type and child count |
| `JsonModel.SetData` | qjsonmodel.cpp:253-266 | a write succeeds exactly for the edit role in column 1, whatever the node's type; a failed write changes nothing and emits nothing; a successful one emits one dataChanged for the cell and the cell then reads back the written text under both roles |
| `JsonModel.Flags` | qjsonmodel.cpp:336-352 | a valid cell is selectable and enabled; it is editable exactly when it is in column 1 of a node whose type is neither Array nor Object; the invalid index has no flags |
| `JsonModel.GenJson` | qjsonmodel.cpp:375-399 | an Object node gives an object and an Array node gives an array with one element per child; any other node gives a string of its stored text |
| `JsonModel.Entries` | qjsonmodel.cpp:380-387 | the object loop inserts one member per child, named by the child keys in child order |
| `JsonModel.JsonDoc` | qjsonmodel.cpp:354-366 | the document is an object document exactly when the root is an Object node; for an Object or Array root it holds the root's genJson value; for any other root it is an empty array |
| `JsonModel.LoadJson` | qjsonmodel.cpp:203-225 | on a model with a live root item (line 210 deletes it): a null parse reports failure and leaves the model and its notifications untouched; a successful parse reports success, emits exactly one begin/end reset pair, and installs the tree built from the document as the new live root, typed Array for an array document and Object otherwise |
| `JsonModel.ClearAsWritten` | qjsonmodel.cpp:368-373 | clear as written emits one begin/end reset pair and leaves the model without a live root item |
| `JsonModel.Clear` | qjsonmodel.cpp:368-373 | clear as intended emits one begin/end reset pair and leaves a usable model with no rows that exports an empty array |
| `ModelLaws.IndexOfParent` | qjsonmodel.cpp:282-312 | `index(row, column, parent(c))` gives back every cell c |
| `ModelLaws.ParentOfIndex` | qjsonmodel.cpp:282-312 | the parent of any cell that `index` makes under the invalid index or a column-0 cell is that parent index |
| `ModelLaws.KeyAndValueColumns` | qjsonmodel.cpp:331-334 | every row has exactly two cells: `index` finds column 0 exactly when it finds column 1, and finds nothing in columns 2 and beyond |
| `ModelLaws.SetValueAtFrame` | qjsonmodel.cpp:258-259 | writing text into one node keeps every node in place, with its key, type and child count, and keeps every other node's text |
| `ModelLaws.SetDataKeepsOtherCells` | qjsonmodel.cpp:253-266 | after any setData, every index the model had still belongs to it, row counts and flags are unchanged, and every cell other than the written node's column 1 reads as before under every role |
| `ModelLaws.EditableIffWritableLeaf` | qjsonmodel.cpp:336-352 | a cell is editable exactly when setData accepts a write to it and its node is neither an Array nor an Object |
| `ModelLaws.LoadedModelMirrorsDocument` | qjsonmodel.cpp:203-225 | after a successful loadJson, every cell stands for a part of the document: its node has that part's kind and row count, its value cell is editable exactly when that part is a scalar, and it then shows the scalar's text |
| `ModelLaws.EveryValueHasCells` | qjsonmodel.cpp:203-225 | after a successful loadJson, every element and member of the document at any depth has its key cell and value cell in the model |
| `ModelLaws.DefaultArguments` | qjsonmodel.h:82-86 | with the default parent, rowCount and index address the root's children; with the default role, setData accepts exactly the writes to column 1 |
| `ModelLaws.NewModelIsEmpty` | qjsonmodel.cpp:143-149 | a freshly constructed model has no rows, gives no cells, and exports an empty array |
| `ModelLaws.ClearLeavesNoRoot` | qjsonmodel.cpp:368-373 | after clear as written the model has no live root item, so no query and no loadJson is within its precondition; after the corrected clear the root is live, the default parent has no cells, and loadJson succeeds exactly on a parsed document |
| `RoundTrip.GenJsonWellFormed` | qjsonmodel.cpp:375-399 | for any tree, genJson produces only string leaves and objects with distinct member names |
| `RoundTrip.RoundTrip` | qjsonmodel.cpp:102-139 | for a value whose objects have distinct names, genJson of the built tree is the value with each scalar leaf replaced by a string of its text; member names, order and nesting are kept |
| `RoundTrip.RoundTripArray` | qjsonmodel.cpp:388-394 | the array case of the round trip: element i comes back as the round trip of element i |
| `RoundTrip.RoundTripObject` | qjsonmodel.cpp:380-387 | the object case of the round trip: inserting the children under their distinct keys rebuilds the members in order, each value taken through the round trip |
| `RoundTrip.StringifyKeepsStrings` | qjsonmodel.cpp:396 | a value whose leaves are all strings is its own text form |
| `RoundTrip.StringifyKeepsShape` | qjsonmodel.cpp:396 | replacing scalars by strings keeps array lengths, member names in order, and nesting |
| `RoundTrip.RoundTripKeepsShape` | qjsonmodel.cpp:375-399 | genJson of a built tree has the same array lengths, the same member name sequences and the same nesting as the value it was built from |
| `RoundTrip.RoundTripExact` | qjsonmodel.cpp:375-399 | genJson of a built tree equals the original value exactly when every leaf is a string and every object has distinct member names |
| `RoundTrip.ExportAfterLoad` | qjsonmodel.cpp:354-366 | json() right after a successful loadJson gives the parsed document with its scalars turned into strings, and gives the document itself exactly when all its leaves are strings |
| `RoundTrip.EditThenExport` | qjsonmodel.cpp:375-399 | editing one leaf of a built tree and running genJson gives the round trip of the value with that leaf replaced by the written string |
| `RoundTrip.EditThenExportArray` | qjsonmodel.cpp:388-394 | the array case of edit-then-export: the edited element changes, and every other element comes back through the plain round trip |
| `RoundTrip.EditThenExportObject` | qjsonmodel.cpp:380-387 | the object case of edit-then-export: the edited member changes, and every other member comes back through the plain round trip, in order |
| `RoundTrip.ContainerValueIsIgnored` | qjsonmodel.cpp:380-394 | text written into an Array or Object node is invisible to genJson |
| `RoundTrip.EditAfterLoadExports` | qjsonmodel.cpp:253-266 | loadJson, then a write to a cell the model reports editable, then json(): the write succeeds, and the export is the parsed document with that scalar replaced by the written string, taken through the round trip |
| `RoundTrip.ContainerWriteIsInvisible` | qjsonmodel.cpp:253-266 | setData accepts a write to the value cell of an Array or Object node, although flags reports that cell read-only, and the write leaves the exported document unchanged |

## Left out

- File and device loading (`load(fileName)`, `load(QIODevice*)`, qjsonmodel.cpp:185-201): this is I/O. `LoadJson` takes the parser's result instead of bytes.
- `QJsonDocument::fromJson` and the text rendering of documents: parsing and serialising are Qt code outside the repository.
- The text of numbers, booleans and null (`QVariant::toString`, qjsonmodel.cpp:134): it involves floating-point formatting, so it is the uninterpreted parameter `text`. Numbers are modelled as reals, so the distinction between doubles and integers is not modelled.
- `QJsonValue::Undefined`: a parsed document never contains it.
- Qt's key order: `QJsonObject` keeps its members sorted by name, but the model keeps them in list order. Iterating over an object and re-inserting its members reproduces the same order under either rule, so the round trip lemmas are unaffected.
- `headerData`, the header list, and the constructors other than the default one: they are display plumbing, and the constructor that takes a null device only skips the header setup.
- `internalData` and `createIndex`: a cell carries the address of its node, so no pointer cast is modelled.
- Deleting the old tree in `loadJson` and in the destructors: the model has no heap. Only the demand that the deleted root item be live is kept.
- The debug message `loadJson` prints on a failed parse (qjsonmodel.cpp:223): it is logging output and changes no state.
- Indices from another model or from before a reset: every query requires an index that belongs to the current model (`Belongs`), because in the source dereferencing such an index is undefined behaviour.
- The constructed root item's type: the constructors leave `mType` uninitialised (qjsonmodel.cpp:145), so `json()` on a fresh model reads an indeterminate type (line 377). The model gives such an item the type `Unset`. The export of an empty array stated by `ModelLaws.NewModelIsEmpty` and by `JsonModel.Clear` rests on that choice.
- The leaf value type in the header: it is declared as `QVariant`, while the implementation stores and returns `QString`. The model follows the implementation.
- The repository's test file: it calls functions the header does not declare (`loadFromRaw`, `loadFromFile`, `json(bool)`), so it describes a different version of the interface.
- `RoundTrip.RoundTrip`, `RoundTrip.RoundTripArray`, `RoundTrip.RoundTripObject`, `RoundTrip.RoundTripKeepsShape`, `RoundTrip.ExportAfterLoad`, `RoundTrip.EditThenExport`, `RoundTrip.EditThenExportArray`, `RoundTrip.EditThenExportObject`, `RoundTrip.EditAfterLoadExports`, `TreeItem.LoadedChildKeysDistinct` and `TreeItem.LoadedSiblingKeysDistinct` require every object to have distinct member names. This holds of every `QJsonObject`, so the requirement excludes no value the source can see.

## Findings

| source | as written | input that shows it | evidently intended | confidence | as-written member | corrected member |
|---|---|---|---|---|---|---|
| qjsonmodel.cpp:368-373 | `clear()` deletes the root item and leaves `mRootItem` pointing at freed memory | `clear()` followed by `rowCount()`, `index(0, 0)` or `json()` reads the deleted item; `clear()` followed by a successful `loadJson` deletes it a second time | `clear()` installs a fresh empty root item, as the constructor does, so the model has no rows and stays usable | high (not executed) | `JsonModel.ClearAsWritten` | `JsonModel.Clear` |

`ModelLaws.ClearLeavesNoRoot` states both halves. After `ClearAsWritten`
there is no live root item, so neither the default parent's queries nor
`LoadJson` (whose precondition stands for the delete at line 210) can be
applied. After `Clear` the root is live, the default parent has no cells,
and `LoadJson` behaves as on any other model.
