/**
 The walk over parsed TOML that finds every integer: an explicit stack instead of recursion, and the
 64-bit range check built on it.
 */
module IntegerWalk {
  import opened Bytes

  datatype Node =
    | Table(fields: seq<Field>)
    | Array(items: seq<Node>)
    | Integer(value: int)
    | Boolean(flag: bool)
    | Other

  datatype Field = Field(key: string, val: Node)

  type Leaf = (string, int)

  function KeyPath(path: string, key: string): string {
    if path != "" then path + "." + key else key
  }

  function IndexPath(path: string, index: nat): string {
    path + "[" + Decimal(index) + "]"
  }

  // The recursive definition: the integers below a node with their key paths, in document order.

  function Leaves(path: string, node: Node): seq<Leaf>
    decreases node
  {
    match node
    case Table(fields) => FieldLeaves(path, fields)
    case Array(items) => ItemLeaves(path, items)
    case Integer(v) => [(path, v)]
    case Boolean(_) => []
    case Other => []
  }

  function FieldLeaves(path: string, fields: seq<Field>): seq<Leaf>
    decreases fields
  {
    if fields == [] then []
    else FieldLeaves(path, fields[..|fields| - 1]) + OneField(path, fields[|fields| - 1])
  }

  function OneField(path: string, field: Field): seq<Leaf>
    decreases field
  {
    Leaves(KeyPath(path, field.key), field.val)
  }

  function ItemLeaves(path: string, items: seq<Node>): seq<Leaf>
    decreases items
  {
    if items == [] then []
    else ItemLeaves(path, items[..|items| - 1]) + Leaves(IndexPath(path, |items| - 1), items[|items| - 1])
  }

  // ---------------------------------------------------------- what a path says

  /** One step down: to an entry of a table, or to an element of an array. */
  datatype Step = Key(key: string) | Index(index: nat)

  /** How a position is written: `assert[0].min`, `args[1].value[2]`. */
  function Rendered(steps: seq<Step>): string {
    if steps == [] then ""
    else
      var front := Rendered(steps[..|steps| - 1]);
      var last := steps[|steps| - 1];
      if last.Index? then front + "[" + Decimal(last.index) + "]"
      else if front == "" then last.key
      else front + "." + last.key
  }

  /** The node at a position is this integer. */
  ghost predicate At(node: Node, steps: seq<Step>, v: int)
    decreases |steps|
  {
    if steps == [] then node == Integer(v)
    else if steps[0].Key? then
      node.Table? && exists f | f in node.fields :: f.key == steps[0].key && At(f.val, steps[1..], v)
    else
      node.Array? && steps[0].index < |node.items| && At(node.items[steps[0].index], steps[1..], v)
  }

  lemma RenderedSnoc(steps: seq<Step>, s: Step)
    ensures Rendered(steps + [s])
         == if s.Key? then KeyPath(Rendered(steps), s.key) else IndexPath(Rendered(steps), s.index)
  {
    assert (steps + [s])[..|steps|] == steps;
  }

  lemma {:induction false} FieldLeaf(path: string, fields: seq<Field>, leaf: Leaf)
    ensures leaf in FieldLeaves(path, fields) <==>
            exists i | 0 <= i < |fields| :: leaf in Leaves(KeyPath(path, fields[i].key), fields[i].val)
  {
    hide Leaves, KeyPath;
    if fields != [] {
      FieldLeaf(path, fields[..|fields| - 1], leaf);
    }
  }

  lemma {:induction false} ItemLeaf(path: string, items: seq<Node>, leaf: Leaf)
    ensures leaf in ItemLeaves(path, items) <==>
            exists i | 0 <= i < |items| :: leaf in Leaves(IndexPath(path, i), items[i])
  {
    hide Leaves, IndexPath;
    if items != [] {
      ItemLeaf(path, items[..|items| - 1], leaf);
    }
  }

  /** Every integer of the walk is at a position that its path says. */
  lemma {:induction false} LeafHasPosition(pre: seq<Step>, node: Node, p: string, v: int) returns (steps: seq<Step>)
    requires (p, v) in Leaves(Rendered(pre), node)
    ensures At(node, steps, v) && p == Rendered(pre + steps)
    decreases node
  {
    hide FieldLeaves, ItemLeaves, Rendered, KeyPath, IndexPath;
    var path := Rendered(pre);
    match node {
      case Table(fields) =>
        FieldLeaf(path, fields, (p, v));
        var i :| 0 <= i < |fields| && (p, v) in Leaves(KeyPath(path, fields[i].key), fields[i].val);
        var step := Key(fields[i].key);
        RenderedSnoc(pre, step);
        var rest := LeafHasPosition(pre + [step], fields[i].val, p, v);
        steps := [step] + rest;
        assert steps[1..] == rest && pre + steps == pre + [step] + rest && fields[i] in fields;
      case Array(items) =>
        ItemLeaf(path, items, (p, v));
        var i: nat :| 0 <= i < |items| && (p, v) in Leaves(IndexPath(path, i), items[i]);
        var step := Index(i);
        RenderedSnoc(pre, step);
        var rest := LeafHasPosition(pre + [step], items[i], p, v);
        steps := [step] + rest;
        assert steps[1..] == rest && pre + steps == pre + [step] + rest;
      case Integer(_) =>
        steps := [];
        assert pre + [] == pre;
      case _ =>
    }
  }

  /** Every integer at a position is found by the walk. */
  lemma {:induction false} PositionHasLeaf(pre: seq<Step>, node: Node, steps: seq<Step>, v: int)
    requires At(node, steps, v)
    ensures (Rendered(pre + steps), v) in Leaves(Rendered(pre), node)
    decreases |steps|
  {
    hide FieldLeaves, ItemLeaves, Rendered, KeyPath, IndexPath;
    if steps == [] {
      assert pre + [] == pre;
    } else {
      var step, rest := steps[0], steps[1..];
      var leaf := (Rendered(pre + steps), v);
      RenderedSnoc(pre, step);
      assert pre + steps == pre + [step] + rest;
      if step.Key? {
        var f :| f in node.fields && f.key == step.key && At(f.val, rest, v);
        PositionHasLeaf(pre + [step], f.val, rest, v);
        FieldLeaf(Rendered(pre), node.fields, leaf);
      } else {
        PositionHasLeaf(pre + [step], node.items[step.index], rest, v);
        ItemLeaf(Rendered(pre), node.items, leaf);
      }
    }
  }

  /** The walk finds exactly the integers of a document, each under the text of its position. */
  lemma LeavesExactly(data: Node, p: string, v: int)
    ensures (p, v) in Leaves("", data) <==> exists steps :: At(data, steps, v) && p == Rendered(steps)
  {
    if (p, v) in Leaves("", data) {
      var steps := LeafHasPosition([], data, p, v);
      assert [] + steps == steps;
    }
    forall steps | At(data, steps, v) && p == Rendered(steps)
      ensures (p, v) in Leaves("", data)
    {
      PositionHasLeaf([], data, steps, v);
      assert [] + steps == steps;
    }
  }

  /** A position as it is documented: `assert[0].min`. */
  lemma DocumentedPath(outer: string, i: nat, inner: string)
    requires outer != ""
    ensures Rendered([Key(outer), Index(i), Key(inner)]) == outer + "[" + Decimal(i) + "]." + inner
  {
    hide Decimal;
    var one, two := [Key(outer)], [Key(outer), Index(i)];
    assert [] + [Key(outer)] == one && one + [Index(i)] == two;
    RenderedSnoc([], Key(outer));
    RenderedSnoc(one, Index(i));
    RenderedSnoc(two, Key(inner));
    assert [Key(outer), Index(i), Key(inner)] == two + [Key(inner)];
  }

  // Node counts, the termination measure of the walk.

  ghost function Size(node: Node): nat
    decreases node
  {
    1 + match node
        case Table(fields) => FieldsSize(fields)
        case Array(items) => ItemsSize(items)
        case _ => 0
  }

  ghost function FieldsSize(fields: seq<Field>): nat
    decreases fields
  {
    if fields == [] then 0 else FieldsSize(fields[..|fields| - 1]) + FieldSize(fields[|fields| - 1])
  }

  ghost function FieldSize(field: Field): nat
    decreases field
  {
    Size(field.val)
  }

  ghost function ItemsSize(items: seq<Node>): nat
    decreases items
  {
    if items == [] then 0 else ItemsSize(items[..|items| - 1]) + Size(items[|items| - 1])
  }

  type Stack = seq<(string, Node)>

  ghost function StackLeaves(stack: Stack): multiset<Leaf> {
    if stack == [] then multiset{}
    else
      var (path, node) := stack[|stack| - 1];
      StackLeaves(stack[..|stack| - 1]) + multiset(Leaves(path, node))
  }

  ghost function StackSize(stack: Stack): nat {
    if stack == [] then 0 else StackSize(stack[..|stack| - 1]) + Size(stack[|stack| - 1].1)
  }

  lemma Pushed(stack: Stack, path: string, node: Node)
    ensures StackLeaves(stack + [(path, node)]) == StackLeaves(stack) + multiset(Leaves(path, node))
    ensures StackSize(stack + [(path, node)]) == StackSize(stack) + Size(node)
  {
    var grown := stack + [(path, node)];
    assert grown[..|grown| - 1] == stack;
  }

  lemma Popped(stack: Stack)
    requires stack != []
    ensures var (path, node) := stack[|stack| - 1];
            && StackLeaves(stack) == StackLeaves(stack[..|stack| - 1]) + multiset(Leaves(path, node))
            && StackSize(stack) == StackSize(stack[..|stack| - 1]) + Size(node)
  {
    var front, last := stack[..|stack| - 1], stack[|stack| - 1];
    assert stack == front + [last];
    Pushed(front, last.0, last.1);
  }

  lemma FieldAppended(path: string, fields: seq<Field>, i: nat)
    requires i < |fields|
    ensures FieldLeaves(path, fields[..i + 1])
         == FieldLeaves(path, fields[..i]) + Leaves(KeyPath(path, fields[i].key), fields[i].val)
    ensures FieldsSize(fields[..i + 1]) == FieldsSize(fields[..i]) + Size(fields[i].val)
  {
    assert fields[..i + 1][..i] == fields[..i];
  }

  lemma ItemAppended(path: string, items: seq<Node>, i: nat)
    requires i < |items|
    ensures ItemLeaves(path, items[..i + 1]) == ItemLeaves(path, items[..i]) + Leaves(IndexPath(path, i), items[i])
    ensures ItemsSize(items[..i + 1]) == ItemsSize(items[..i]) + Size(items[i])
  {
    assert items[..i + 1][..i] == items[..i];
  }

  /** The entries of a table, pushed in order. */
  method PushFields(stack: Stack, path: string, fields: seq<Field>) returns (grown: Stack)
    ensures StackLeaves(grown) == StackLeaves(stack) + multiset(FieldLeaves(path, fields))
    ensures StackSize(grown) == StackSize(stack) + FieldsSize(fields)
  {
    grown := stack;
    for i := 0 to |fields|
      invariant StackLeaves(grown) == StackLeaves(stack) + multiset(FieldLeaves(path, fields[..i]))
      invariant StackSize(grown) == StackSize(stack) + FieldsSize(fields[..i])
    {
      hide StackLeaves, StackSize, Leaves, KeyPath, FieldLeaves, FieldsSize, Size;
      var field := fields[i];
      FieldAppended(path, fields, i);
      Pushed(grown, KeyPath(path, field.key), field.val);
      grown := grown + [(KeyPath(path, field.key), field.val)];
    }
    assert fields[..|fields|] == fields;
  }

  /** The elements of an array, pushed in order. */
  method PushItems(stack: Stack, path: string, items: seq<Node>) returns (grown: Stack)
    ensures StackLeaves(grown) == StackLeaves(stack) + multiset(ItemLeaves(path, items))
    ensures StackSize(grown) == StackSize(stack) + ItemsSize(items)
  {
    grown := stack;
    for i := 0 to |items|
      invariant StackLeaves(grown) == StackLeaves(stack) + multiset(ItemLeaves(path, items[..i]))
      invariant StackSize(grown) == StackSize(stack) + ItemsSize(items[..i])
    {
      hide StackLeaves, StackSize, Leaves, IndexPath, ItemLeaves, ItemsSize, Size;
      ItemAppended(path, items, i);
      Pushed(grown, IndexPath(path, i), items[i]);
      grown := grown + [(IndexPath(path, i), items[i])];
    }
    assert items[..|items|] == items;
  }

  lemma Regroup(a: multiset<Leaf>, b: multiset<Leaf>, c: multiset<Leaf>)
    ensures a + (b + c) == a + c + b
    ensures c == multiset{} ==> a + (b + c) == a + b
  {
  }

  lemma Yielded(yielded: seq<Leaf>, leaf: Leaf)
    ensures multiset(yielded + [leaf]) == multiset(yielded) + multiset([leaf])
  {
  }

  /** `_iter_integer_values`: yields exactly the leaves of the recursive definition, booleans excluded. */
  method IntegerValues(data: Node) returns (yielded: seq<Leaf>)
    ensures multiset(yielded) == multiset(Leaves("", data))
  {
    var stack: Stack := [("", data)];
    yielded := [];
    assert stack == [] + [("", data)];
    Pushed([], "", data);
    while stack != []
      invariant multiset(yielded) + StackLeaves(stack) == multiset(Leaves("", data))
      decreases StackSize(stack)
    {
      hide StackLeaves, StackSize, FieldLeaves, ItemLeaves, FieldsSize, ItemsSize;
      var (path, node) := stack[|stack| - 1];
      Popped(stack);
      ghost var below := StackLeaves(stack[..|stack| - 1]);
      Regroup(multiset(yielded), below, multiset(Leaves(path, node)));
      stack := stack[..|stack| - 1];
      if node.Table? {
        stack := PushFields(stack, path, node.fields);
      } else if node.Array? {
        stack := PushItems(stack, path, node.items);
      } else if node.Integer? {
        Yielded(yielded, (path, node.value));
        yielded := yielded + [(path, node.value)];
      }
    }
    assert StackLeaves([]) == multiset{};
  }

  const INT64_MIN: int := -0x8000_0000_0000_0000
  const INT64_MAX: int := 0x7FFF_FFFF_FFFF_FFFF

  predicate InRange(v: int) {
    INT64_MIN <= v <= INT64_MAX
  }

  /** The range check is that of signed integers of eight bytes. */
  lemma RangeIsSigned64(v: int)
    ensures InRange(v) <==> 0 <= 2 * v + Pow256(8) < 2 * Pow256(8)
  {
    WordSizes();
  }

  /**
   `report_out_of_range_integers`: one report for each integer outside the signed 64-bit range,
   and true exactly when there is one.
   */
  method ReportOutOfRange(data: Node) returns (reported: bool, errors: seq<Leaf>)
    ensures reported <==> exists leaf | leaf in Leaves("", data) :: !InRange(leaf.1)
    ensures forall leaf :: multiset(errors)[leaf] == if InRange(leaf.1) then 0 else multiset(Leaves("", data))[leaf]
  {
    hide Leaves, InRange;
    reported, errors := false, [];
    var found := IntegerValues(data);
    for i := 0 to |found|
      invariant reported <==> errors != []
      invariant forall leaf :: multiset(errors)[leaf] == if InRange(leaf.1) then 0 else multiset(found[..i])[leaf]
    {
      assert found[..i + 1] == found[..i] + [found[i]];
      Yielded(found[..i], found[i]);
      if !InRange(found[i].1) {
        reported := true;
        Yielded(errors, found[i]);
        errors := errors + [found[i]];
      }
    }
    assert found[..|found|] == found;
    ReportedExactly(errors, Leaves("", data));
  }

  lemma ReportedExactly(errors: seq<Leaf>, leaves: seq<Leaf>)
    requires forall leaf :: multiset(errors)[leaf] == if InRange(leaf.1) then 0 else multiset(leaves)[leaf]
    ensures errors != [] <==> exists leaf | leaf in leaves :: !InRange(leaf.1)
  {
    if errors != [] {
      assert errors[0] in multiset(errors);
      assert errors[0] in multiset(leaves);
    }
    forall leaf | leaf in leaves && !InRange(leaf.1)
      ensures errors != []
    {
      assert leaf in multiset(leaves);
      assert leaf in multiset(errors);
    }
  }
}
