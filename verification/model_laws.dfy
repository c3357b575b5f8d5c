/** Laws of the QJsonModel adapter: index and parent undo each other, a
    write touches one cell only, editability follows the node type, and a
    freshly loaded model shows the parsed document cell for cell. */
module ModelLaws {
  import opened Wrappers
  import opened JsonValue
  import opened TreeItem
  import opened JsonModel

  /** The index of a cell's row and column under the cell's parent is the
      cell itself. */
  lemma IndexOfParent(m: Model, idx: ModelIndex)
    requires Belongs(m, idx) && idx.Cell?
    ensures Index(m, idx.row, idx.column, Parent(m, idx)) == idx
  {
    var p := Parent(m, idx);
    var pp := ParentAddress(idx.path);
    assert idx.path == pp + [idx.row];
    ParentExists(m.root.value, pp, [idx.row]);
    NodeAtSnoc(m.root.value, pp, idx.row);
    assert p.Address() == pp;
  }

  /** The parent of a cell made by index under `parent` is `parent`, when
      `parent` is the invalid index or a column-0 cell. */
  lemma ParentOfIndex(m: Model, row: int, column: int, parent: ModelIndex)
    requires Belongs(m, parent) && parent.Column() <= 0
    ensures Index(m, row, column, parent).Cell? ==> Parent(m, Index(m, row, column, parent)) == parent
  {
    var c := Index(m, row, column, parent);
    if c.Cell? {
      assert ParentAddress(c.path) == parent.Address();
    }
  }

  /** Every row has exactly two cells, the key in column 0 and the value
      in column 1: index finds both or neither, and nothing further right. */
  lemma KeyAndValueColumns(m: Model, row: int, column: int, parent: ModelIndex)
    requires Belongs(m, parent)
    ensures Index(m, row, 0, parent).Cell? <==> Index(m, row, 1, parent).Cell?
    ensures column >= 2 ==> Index(m, row, column, parent) == Invalid
  {
  }

  /** Changing the stored text at `path` leaves every node in place, with
      its key, type and child count, and leaves every other node's text. */
  lemma {:induction false} SetValueAtFrame(root: Node, path: seq<nat>, s: string, q: seq<nat>)
    requires NodeAt(root, path).Some? && NodeAt(root, q).Some?
    ensures NodeAt(SetValueAt(root, path, s), q).Some?
    ensures
      var a := NodeAt(root, q).value;
      var b := NodeAt(SetValueAt(root, path, s), q).value;
      a.key == b.key && a.kind == b.kind && |a.children| == |b.children| && (q != path ==> a.value == b.value)
    decreases |path|
  {
    var r := SetValueAt(root, path, s);
    if path != [] && q != [] {
      if q[0] == path[0] {
        SetValueAtFrame(root.children[path[0]], path[1..], s, q[1..]);
        assert q != path ==> q[1..] != path[1..] by {
          if q[1..] == path[1..] {
            assert q == [q[0]] + q[1..] && path == [path[0]] + path[1..];
          }
        }
      } else {
        assert r.children[q[0]] == root.children[q[0]];
      }
    }
  }

  /** A write changes what the model shows in column 1 of the written node
      only: every index stays valid, and row counts, flags and every other
      cell read the same as before. */
  lemma SetDataKeepsOtherCells(m: Model, idx: ModelIndex, s: string, role: int, other: ModelIndex, role2: int)
    requires Belongs(m, idx) && Belongs(m, other)
    ensures Belongs(SetData(m, idx, s, role).model, other)
    ensures RowCount(SetData(m, idx, s, role).model, other) == RowCount(m, other)
    ensures Flags(SetData(m, idx, s, role).model, other) == Flags(m, other)
    ensures other.Address() != idx.Address() || other.Column() != 1 ==>
      Data(SetData(m, idx, s, role).model, other, role2) == Data(m, other, role2)
  {
    var r := SetData(m, idx, s, role);
    if r.ok {
      SetValueAtFrame(m.root.value, idx.path, s, other.Address());
    }
  }

  /** A cell is editable exactly when a write to it is accepted and it is
      not the value cell of an Array or Object node; setData itself accepts
      such writes too. */
  lemma EditableIffWritableLeaf(m: Model, idx: ModelIndex, s: string)
    requires Belongs(m, idx)
    ensures Editable in Flags(m, idx) <==>
      SetData(m, idx, s, EditRole).ok && ItemAt(m, idx).kind != ArrayKind && ItemAt(m, idx).kind != ObjectKind
  {
  }

  /** After a successful loadJson every cell shows the part of the parsed
      document at its address: the node's type is that value's kind, its row
      count the value's number of elements or members, its column-1 cell is
      editable exactly when the value is a scalar, and then shows its text. */
  lemma LoadedModelMirrorsDocument(m: Model, d: Document, text: ScalarText, idx: ModelIndex)
    requires Live(m) && Belongs(LoadJson(m, Some(d), text).model, idx) && idx.Cell?
    ensures JsonAt(d.ToValue(), idx.path).Some?
    ensures
      var m1 := LoadJson(m, Some(d), text).model;
      var w := JsonAt(d.ToValue(), idx.path).value;
      var keyCell := Cell(idx.row, 0, idx.path);
      var valueCell := Cell(idx.row, 1, idx.path);
      && Belongs(m1, keyCell) && Belongs(m1, valueCell)
      && ItemAt(m1, idx).kind == KindOf(w)
      && RowCount(m1, keyCell) == Arity(w)
      && (Editable in Flags(m1, valueCell) <==> w.IsScalar())
      && (w.IsScalar() ==> Data(m1, valueCell, DisplayRole) == Some(LeafText(w, text)))
  {
    var m1 := LoadJson(m, Some(d), text).model;
    var root := LoadChild(d.ToValue(), RootKey, text);
    assert m1.root == Some(root);
    LoadedNodeMirrorsValue(d.ToValue(), RootKey, text, idx.path);
    CellsOfOneNode(m1, idx);
  }

  /** The key cell and the value cell of a node address the same item. */
  lemma CellsOfOneNode(m: Model, idx: ModelIndex)
    requires Belongs(m, idx) && idx.Cell?
    ensures Belongs(m, Cell(idx.row, 0, idx.path)) && Belongs(m, Cell(idx.row, 1, idx.path))
    ensures ItemAt(m, Cell(idx.row, 0, idx.path)) == ItemAt(m, idx)
    ensures ItemAt(m, Cell(idx.row, 1, idx.path)) == ItemAt(m, idx)
    ensures RowCount(m, Cell(idx.row, 0, idx.path)) == ChildCount(ItemAt(m, idx))
  {
  }

  /** Conversely every element and member of the parsed document has its
      cells in the loaded model. */
  lemma EveryValueHasCells(m: Model, d: Document, text: ScalarText, path: seq<nat>, column: nat)
    requires Live(m) && path != [] && JsonAt(d.ToValue(), path).Some? && column < 2
    ensures Belongs(LoadJson(m, Some(d), text).model, Cell(path[|path| - 1], column, path))
  {
    SubtreesAreLoaded(d.ToValue(), RootKey, text, path);
  }

  /** The default arguments: rowCount and index with no parent address the
      root's children, and setData with no role accepts a write to column 1. */
  lemma DefaultArguments(m: Model, row: int, column: int, idx: ModelIndex, s: string)
    requires Belongs(m, idx)
    ensures RowCount(m, DefaultParent) == ChildCount(m.root.value)
    ensures Index(m, row, column, DefaultParent).Cell? ==>
      Index(m, row, column, DefaultParent).path == [row] && Some(ItemAt(m, Index(m, row, column, DefaultParent))) == ChildAt(m.root.value, row)
    ensures SetData(m, idx, s, DefaultRole).ok <==> idx.Column() == 1
  {
  }

  /** The model as constructed has no rows and exports an empty array. */
  lemma NewModelIsEmpty(row: int, column: int)
    ensures RowCount(NewModel(), Invalid) == 0
    ensures Index(NewModel(), row, column, Invalid) == Invalid
    ensures JsonDoc(NewModel()) == ArrayDoc([])
  {
  }

  /** After clear as written the model has no live root item: rowCount,
      index and data with the default parent would dereference the deleted
      item, and a later loadJson would delete it a second time, so neither
      is within its precondition. After the corrected clear every such
      query is defined and finds no rows, and loadJson works as before. */
  lemma ClearLeavesNoRoot(m: Model, row: int, column: int, parsed: Option<Document>, text: ScalarText)
    ensures !Live(ClearAsWritten(m)) && !Belongs(ClearAsWritten(m), DefaultParent)
    ensures Live(Clear(m)) && Belongs(Clear(m), DefaultParent)
    ensures Index(Clear(m), row, column, DefaultParent) == Invalid
    ensures LoadJson(Clear(m), parsed, text).ok <==> parsed.Some?
  {
  }
}
