/** QJsonModel: the two-column (key, value) hierarchical table a tree view
    reads, over the tree of TreeItem. The model's state is its root item
    (absent once `clear` has deleted it) and the trace of the reset and
    data-changed notifications it has emitted. */
module JsonModel {
  import opened Wrappers
  import opened JsonValue
  import opened TreeItem

  /** Qt::DisplayRole and Qt::EditRole. */
  const DisplayRole: int := 0
  const EditRole: int := 2

  /** QModelIndex: either the invalid index, or a cell naming a row, a
      column and the node it belongs to (by address). The invalid index
      reports row and column -1 and stands for the root. */
  datatype ModelIndex = Invalid | Cell(row: nat, column: nat, path: seq<nat>)
  {
    function Row(): int {
      if Cell? then row else -1
    }

    function Column(): int {
      if Cell? then column else -1
    }

    /** The node an index stands for: its own node, or the root. */
    function Address(): seq<nat> {
      if Cell? then path else []
    }
  }

  /** The default arguments: setData's role, and the parent of index and
      rowCount. */
  const DefaultRole: int := EditRole
  const DefaultParent: ModelIndex := Invalid

  datatype Event = BeginReset | EndReset | DataChanged(index: ModelIndex)

  datatype Model = Model(root: Option<Node>, events: seq<Event>)

  /** The outcome of an operation that reports success: the new state and
      the returned flag. */
  datatype Reply = Reply(model: Model, ok: bool)

  /** Qt::ItemFlag, restricted to the flags this model hands out. */
  datatype ItemFlag = Selectable | Editable | Enabled

  /** The model made by QJsonModel(QObject*): an empty root item. */
  function NewModel(): Model {
    Model(Some(NewItem()), [])
  }

  /** The model owns a live root item: every query starts from it, and
      loadJson deletes it before installing the new tree. */
  predicate Live(m: Model) {
    m.root.Some?
  }

  /** An index this model can have handed out: the invalid index, or a cell
      for an existing non-root node whose row is its position and whose
      column is 0 or 1. */
  predicate Belongs(m: Model, idx: ModelIndex) {
    && Live(m)
    && (idx.Cell? ==>
         && idx.path != []
         && NodeAt(m.root.value, idx.path).Some?
         && idx.row == idx.path[|idx.path| - 1]
         && idx.column < 2)
  }

  /** The item an index addresses (internalData, or the root item for the
      invalid index). */
  function ItemAt(m: Model, idx: ModelIndex): Node
    requires Belongs(m, idx)
  {
    NodeAt(m.root.value, idx.Address()).value
  }

  function ColumnCount(parent: ModelIndex): int {
    2
  }

  /** QJsonModel::rowCount. */
  function RowCount(m: Model, parent: ModelIndex): (r: nat)
    requires Belongs(m, parent)
    ensures parent.Column() > 0 ==> r == 0
    ensures parent.Column() <= 0 ==> r == ChildCount(ItemAt(m, parent))
  {
    if parent.Column() > 0 then 0 else ChildCount(ItemAt(m, parent))
  }

  /** QAbstractItemModel::hasIndex. */
  function HasIndex(m: Model, row: int, column: int, parent: ModelIndex): bool
    requires Belongs(m, parent)
  {
    if row < 0 || column < 0 then false
    else row < RowCount(m, parent) && column < ColumnCount(parent)
  }

  /** QJsonModel::index: the cell at (`row`, `column`) under `parent`, or the
      invalid index when there is none. */
  function Index(m: Model, row: int, column: int, parent: ModelIndex): (r: ModelIndex)
    requires Belongs(m, parent)
    ensures r.Cell? <==> 0 <= row < RowCount(m, parent) && 0 <= column < ColumnCount(parent)
    ensures r.Cell? ==>
      && Belongs(m, r)
      && r.row == row && r.column == column
      && Some(ItemAt(m, r)) == ChildAt(ItemAt(m, parent), row)
  {
    if !HasIndex(m, row, column, parent) then Invalid
    else
      var parentItem := ItemAt(m, parent);
      match ChildAt(parentItem, row)
      case Some(_) =>
        NodeAtSnoc(m.root.value, parent.Address(), row);
        Cell(row, column, parent.Address() + [row])
      case None => Invalid
  }

  /** QJsonModel::parent: the column-0 cell of the node's parent, or the
      invalid index when the parent is the root item. */
  function Parent(m: Model, idx: ModelIndex): (r: ModelIndex)
    requires Belongs(m, idx)
    ensures Belongs(m, r)
    ensures r.Invalid? <==> idx.Invalid? || |idx.path| == 1
    ensures r.Cell? ==> r.column == 0 && r.path + [idx.row] == idx.path
  {
    if idx.Invalid? then Invalid
    else
      var parentPath := ParentAddress(idx.path);
      if parentPath == [] then Invalid
      else
        assert idx.path == parentPath + [idx.row];
        ParentExists(m.root.value, parentPath, [idx.row]);
        Cell(RowOf(m.root.value, parentPath), 0, parentPath)
  }

  /** QJsonModel::data: the key in column 0 and the stored text in column 1
      for the display role, the stored text in column 1 for the edit role,
      and an invalid variant (None) otherwise. */
  function Data(m: Model, idx: ModelIndex, role: int): (r: Option<string>)
    requires Belongs(m, idx)
    ensures r.Some? <==>
      idx.Cell? && ((role == DisplayRole && idx.column < 2) || (role == EditRole && idx.column == 1))
    ensures r.Some? && idx.column == 0 ==> r.value == ItemAt(m, idx).key
    ensures r.Some? && idx.column == 1 ==> r.value == ItemAt(m, idx).value
  {
    if idx.Invalid? then None
    else
      var item := ItemAt(m, idx);
      if role == DisplayRole then
        if idx.column == 0 then Some(item.key)
        else if idx.column == 1 then Some(item.value)
        else None
      else if role == EditRole && idx.column == 1 then Some(item.value)
      else None
  }

  /** The tree with the stored text of the node at `path` replaced. */
  function SetValueAt(root: Node, path: seq<nat>, s: string): (r: Node)
    requires NodeAt(root, path).Some?
    ensures NodeAt(r, path) == Some(NodeAt(root, path).value.(value := s))
    ensures r.key == root.key && r.kind == root.kind && |r.children| == |root.children|
    decreases |path|
  {
    if path == [] then root.(value := s)
    else
      var i := path[0];
      root.(children := root.children[i := SetValueAt(root.children[i], path[1..], s)])
  }

  /** QJsonModel::setData: a write with the edit role to column 1 stores the
      text in the addressed node, emits dataChanged for that cell and
      reports success; any other write changes nothing and reports failure.
      The node's type is not consulted. */
  function SetData(m: Model, idx: ModelIndex, value: string, role: int): (r: Reply)
    requires Belongs(m, idx)
    ensures r.ok <==> role == EditRole && idx.Column() == 1
    ensures !r.ok ==> r.model == m
    ensures r.ok ==>
      && r.model.events == m.events + [DataChanged(idx)]
      && Belongs(r.model, idx)
      && Data(r.model, idx, EditRole) == Some(value)
      && Data(r.model, idx, DisplayRole) == Some(value)
  {
    if role == EditRole && idx.Column() == 1 then
      var root := SetValueAt(m.root.value, idx.path, value);
      Reply(Model(Some(root), m.events + [DataChanged(idx)]), true)
    else
      Reply(m, false)
  }

  /** QJsonModel::flags: a valid cell is selectable and enabled (the base
      class's flags), and editable too when it is in column 1 of a node
      whose type is neither Array nor Object. */
  function Flags(m: Model, idx: ModelIndex): (r: set<ItemFlag>)
    requires Belongs(m, idx)
    ensures Editable in r <==>
      idx.Cell? && idx.column == 1 && ItemAt(m, idx).kind != ArrayKind && ItemAt(m, idx).kind != ObjectKind
    ensures Selectable in r <==> idx.Cell?
    ensures Enabled in r <==> idx.Cell?
  {
    if idx.Invalid? then {}
    else
      var item := ItemAt(m, idx);
      var isContainer := item.kind == ArrayKind || item.kind == ObjectKind;
      if idx.column == 1 && !isContainer then {Editable, Selectable, Enabled}
      else {Selectable, Enabled}
  }

  /** QJsonModel::genJson: an Object node becomes the object built by
      inserting each child's genJson value under the child's key, in child
      order; an Array node becomes the array of its children's genJson
      values; any other node becomes a string of its stored text. */
  function GenJson(n: Node): (v: Json)
    ensures v.Object? <==> n.kind == ObjectKind
    ensures v.Array? <==> n.kind == ArrayKind
    ensures v.Array? ==> |v.elems| == |n.children|
    ensures v.IsScalar() ==> v == String(n.value)
    decreases n, 1
  {
    if n.kind == ObjectKind then Object(InsertAll(Entries(n)))
    else if n.kind == ArrayKind then
      Array(seq(|n.children|, i requires 0 <= i < |n.children| => GenJson(n.children[i])))
    else String(n.value)
  }

  /** The (key, genJson value) pair of every child, in child order: what
      genJson's object loop inserts. */
  function Entries(n: Node): (es: seq<Member>)
    ensures Keys(es) == ChildKeys(n)
    decreases n, 0
  {
    seq(|n.children|, i requires 0 <= i < |n.children| => Member(n.children[i].key, GenJson(n.children[i])))
  }

  /** QJsonModel::json: the document of the root's genJson value, taken as
      an object when it is one and as an array otherwise. */
  function JsonDoc(m: Model): (d: Document)
    requires m.root.Some?
    ensures d.ObjectDoc? <==> m.root.value.kind == ObjectKind
    ensures d.ObjectDoc? || m.root.value.kind == ArrayKind ==> d.ToValue() == GenJson(m.root.value)
    ensures m.root.value.kind != ObjectKind && m.root.value.kind != ArrayKind ==> d == ArrayDoc([])
  {
    match GenJson(m.root.value)
    case Object(ms) => ObjectDoc(ms)
    case Array(es) => ArrayDoc(es)
    case _ => ArrayDoc([])
  }

  /** The root item the builder makes for a parsed document, with its type
      set to Array for an array document and Object otherwise. */
  function DocumentRoot(d: Document, text: ScalarText): Node {
    match d
    case ArrayDoc(es) => Load(Array(es), text).(kind := ArrayKind)
    case ObjectDoc(ms) => Load(Object(ms), text).(kind := ObjectKind)
  }

  /** QJsonModel::loadJson, with the parser's output as input (None for a
      null document). A failed parse changes nothing and emits nothing; a
      successful one deletes the old root item and installs the new tree
      inside one begin/end reset pair, so the old root must be live. */
  function LoadJson(m: Model, parsed: Option<Document>, text: ScalarText): (r: Reply)
    requires Live(m)
    ensures r.ok <==> parsed.Some?
    ensures !r.ok ==> r.model == m
    ensures r.ok ==>
      && Live(r.model)
      && r.model.events == m.events + [BeginReset, EndReset]
      && r.model.root == Some(LoadChild(parsed.value.ToValue(), RootKey, text))
      && r.model.root.value.kind == (if parsed.value.ArrayDoc? then ArrayKind else ObjectKind)
  {
    match parsed
    case None => Reply(m, false)
    case Some(d) => Reply(Model(Some(DocumentRoot(d, text)), m.events + [BeginReset, EndReset]), true)
  }

  /** QJsonModel::clear as written: the root item is deleted inside one
      begin/end reset pair and no new one is installed, so the model is left
      without a live root item. */
  function ClearAsWritten(m: Model): (r: Model)
    ensures r.root.None?
    ensures r.events == m.events + [BeginReset, EndReset]
  {
    Model(None, m.events + [BeginReset, EndReset])
  }

  /** QJsonModel::clear as intended: the old tree is discarded inside one
      begin/end reset pair and a fresh empty root item takes its place, so
      the model is usable again, has no rows and exports an empty array. */
  function Clear(m: Model): (r: Model)
    ensures r.events == m.events + [BeginReset, EndReset]
    ensures Belongs(r, DefaultParent) && RowCount(r, DefaultParent) == 0
    ensures JsonDoc(r) == ArrayDoc([])
  {
    Model(Some(NewItem()), m.events + [BeginReset, EndReset])
  }
}
