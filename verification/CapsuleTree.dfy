/** The same deletion made in place, on the tree of lists and dictionaries that json.loads builds. */
module CapsuleTree {
  import opened Wrappers
  import opened Json
  import opened CapsuleClearing

  function IndexOf(keys: seq<string>, key: string): (r: Option<nat>)
    ensures match r
            case Some(i) => i < |keys| && keys[i] == key
            case None => key !in keys
  {
    if keys == [] then None
    else if keys[0] == key then Some(0)
    else
      match IndexOf(keys[1..], key)
      case Some(i) => Some(i + 1)
      case None => None
  }

  lemma {:induction false} OtherFields(fields: seq<Field>, path: Path)
    requires path != [] && path[0] != ANY && !HasKey(fields, path[0])
    ensures ClearedFields(fields, path) == fields
  {
    hide Cleared;
    if fields != [] {
      assert fields[0].key != path[0];
      assert forall i | 0 <= i < |fields| - 1 :: fields[1..][i] == fields[i + 1];
      OtherFields(fields[1..], path);
    }
  }

  /** A named first step touches the one entry with that key. */
  lemma NamedField(fields: seq<Field>, path: Path, i: nat)
    requires path != [] && path[0] != ANY && i < |fields| && DistinctKeys(fields) && fields[i].key == path[0]
    ensures ClearedFields(fields, path) == fields[..i] + ClearedField(fields[i], path) + fields[i + 1..]
  {
    assert fields == fields[..i] + [fields[i]] + fields[i + 1..];
    ClearedFieldsConcat(fields[..i] + [fields[i]], fields[i + 1..], path);
    ClearedFieldsConcat(fields[..i], [fields[i]], path);
    OneField(fields[i], path);
    var rest := fields[i + 1..];
    OtherFields(fields[..i], path);
    OtherFields(rest, path);
  }

  /** A "*" touches every entry and deletes none. */
  lemma {:induction false} StarField(fields: seq<Field>, path: Path, i: nat)
    requires path != [] && path[0] == ANY && i < |fields|
    ensures |ClearedFields(fields, path)| == |fields|
    ensures ClearedFields(fields, path)[i] == Field(fields[i].key, Cleared(fields[i].value, path[1..]))
  {
    hide Cleared;
    StarLength(fields, path);
    if i > 0 {
      StarField(fields[1..], path, i - 1);
    }
  }

  lemma {:induction false} StarLength(fields: seq<Field>, path: Path)
    requires path != [] && path[0] == ANY
    ensures |ClearedFields(fields, path)| == |fields|
  {
    hide Cleared;
    if fields != [] {
      StarLength(fields[1..], path);
    }
  }

  lemma DistinctUpdate(fields: seq<Field>, i: nat, value: Json)
    requires DistinctKeys(fields) && i < |fields|
    ensures DistinctKeys(fields[i := Field(fields[i].key, value)])
  {
  }

  lemma DistinctWithout(fields: seq<Field>, i: nat)
    requires DistinctKeys(fields) && i < |fields|
    ensures DistinctKeys(fields[..i] + fields[i + 1..])
  {
  }

  datatype Kind = Scalar | List | Dict

  /** Trees that share no node, all within `below`. */
  ghost predicate Separate(nodes: seq<Node>, below: set<object>)
    reads nodes, below
  {
    && (forall i | 0 <= i < |nodes| :: nodes[i] in below && nodes[i].Repr <= below && nodes[i].Valid())
    && forall i, j | 0 <= i < j < |nodes| :: nodes[i].Repr !! nodes[j].Repr
  }

  class Node {
    const kind: Kind
    var keys: seq<string>
    var children: seq<Node>
    ghost var content: Json
    ghost var Repr: set<object>

    constructor Leaf(value: Json)
      requires !value.Arr? && !value.Obj?
      ensures Valid() && fresh(Repr) && content == value
    {
      kind, keys, children := Scalar, [], [];
      content, Repr := value, {this};
    }

    constructor ListOf(children: seq<Node>, ghost items: seq<Json>, ghost below: set<object>)
      requires Separate(children, below) && |items| == |children|
      requires forall i | 0 <= i < |children| :: items[i] == children[i].content
      ensures Valid() && Repr == {this} + below && content == Arr(items)
    {
      kind, keys, this.children := List, [], children;
      content, Repr := Arr(items), {this} + below;
    }

    constructor DictOf(keys: seq<string>, children: seq<Node>, ghost fields: seq<Field>, ghost below: set<object>)
      requires Separate(children, below) && |fields| == |children| == |keys| && DistinctKeys(fields)
      requires forall i | 0 <= i < |children| :: fields[i] == Field(keys[i], children[i].content)
      ensures Valid() && Repr == {this} + below && content == Obj(fields)
    {
      kind, this.keys, this.children := Dict, keys, children;
      content, Repr := Obj(fields), {this} + below;
    }

    /** The children are trees of their own, and the content is made of theirs. */
    ghost predicate Valid()
      reads this, Repr
      decreases Repr
    {
      && this in Repr
      && (forall i | 0 <= i < |children| ::
            children[i] in Repr && children[i].Repr <= Repr - {this} && children[i].Valid())
      && (forall i, j | 0 <= i < j < |children| :: children[i].Repr !! children[j].Repr)
      && Shaped()
    }

    ghost predicate Shaped()
      reads this, children
    {
      match kind
      case Scalar => children == [] && !content.Arr? && !content.Obj?
      case List =>
        && content.Arr? && |content.items| == |children|
        && forall i | 0 <= i < |children| :: content.items[i] == children[i].content
      case Dict =>
        && content.Obj? && |content.fields| == |children| == |keys|
        && DistinctKeys(content.fields)
        && forall i | 0 <= i < |children| :: content.fields[i] == Field(keys[i], children[i].content)
    }

    /** _clear_path. */
    method ClearPath(path: Path)
      requires Valid()
      modifies Repr
      ensures Valid() && Repr == old(Repr)
      ensures content == Cleared(old(content), path)
      decreases |path|, 1
    {
      if path == [] {
        return;
      }
      if path[0] == ANY {
        ClearChildren(path);
        return;
      }
      if kind != Dict {
        return;
      }
      match IndexOf(keys, path[0]) {
        case None =>
          assert forall i | 0 <= i < |keys| :: content.fields[i].key == keys[i];
          OtherFields(content.fields, path);
        case Some(i) =>
          NamedField(content.fields, path, i);
          if |path| == 1 {
            DeleteEntry(i);
          } else {
            ClearChild(i, path);
          }
      }
    }

    method DeleteEntry(i: nat)
      requires Valid() && kind == Dict && i < |keys|
      modifies this
      ensures Valid() && Repr == old(Repr)
      ensures content == Obj(old(content.fields[..i] + content.fields[i + 1..]))
    {
      hide Cleared, DistinctKeys;
      DistinctWithout(content.fields, i);
      keys := keys[..i] + keys[i + 1..];
      children := children[..i] + children[i + 1..];
      content := Obj(content.fields[..i] + content.fields[i + 1..]);
    }

    method ClearChild(i: nat, path: Path)
      requires Valid() && kind == Dict && i < |keys| && |path| > 1
      modifies Repr
      ensures Valid() && Repr == old(Repr)
      ensures content == old(Obj(content.fields[i := Field(keys[i], Cleared(content.fields[i].value, path[1..]))]))
      decreases |path|, 0
    {
      hide Cleared, DistinctKeys;
      children[i].ClearPath(path[1..]);
      DistinctUpdate(content.fields, i, children[i].content);
      content := Obj(content.fields[i := Field(keys[i], children[i].content)]);
    }

    method ClearChildren(path: Path)
      requires Valid() && path != [] && path[0] == ANY
      modifies Repr
      ensures Valid() && Repr == old(Repr)
      ensures content == Cleared(old(content), path)
      decreases |path|, 0
    {
      ghost var before := content;
      ClearEach(path[1..]);
      content := Cleared(before, path);
      ShapedAgain(before, path);
    }

    /** The loop over list items or dictionary values. */
    method ClearEach(rest: Path)
      requires Valid()
      modifies Repr - {this}
      ensures forall i | 0 <= i < |children| ::
                && children[i].Repr == old(children[i].Repr) && children[i].Valid()
                && children[i].content == Cleared(old(children[i].content), rest)
      decreases |rest|, 2
    {
      hide Cleared;
      for n := 0 to |children|
        invariant forall i | 0 <= i < |children| ::
                    children[i] in Repr && children[i].Repr == old(children[i].Repr) && children[i].Valid()
        invariant forall i | 0 <= i < n :: children[i].content == Cleared(old(children[i].content), rest)
        invariant forall i | n <= i < |children| :: children[i].content == old(children[i].content)
      {
        children[n].ClearPath(rest);
      }
    }

    lemma ShapedAgain(before: Json, path: Path)
      requires path != [] && path[0] == ANY && content == Cleared(before, path)
      requires kind == Scalar ==> children == [] && !before.Arr? && !before.Obj?
      requires kind == List ==>
                 && before.Arr? && |before.items| == |children|
                 && forall i | 0 <= i < |children| :: children[i].content == Cleared(before.items[i], path[1..])
      requires kind == Dict ==>
                 && before.Obj? && |before.fields| == |children| == |keys| && DistinctKeys(before.fields)
                 && forall i | 0 <= i < |children| ::
                      before.fields[i].key == keys[i] &&
                      children[i].content == Cleared(before.fields[i].value, path[1..])
      ensures Shaped()
    {
      match kind {
        case Scalar =>
        case List =>
          forall i | 0 <= i < |children|
            ensures content.items[i] == children[i].content
          {
            ClearedItem(before.items, path[1..], i);
          }
        case Dict =>
          ClearedDistinct(before.fields, path);
          StarLength(before.fields, path);
          forall i | 0 <= i < |children|
            ensures content.fields[i] == Field(keys[i], children[i].content)
          {
            StarField(before.fields, path, i);
          }
      }
    }
  }

  /** The loop over the protected telemetry paths. */
  method ClearCapsule(record: Node)
    requires record.Valid()
    modifies record.Repr
    ensures record.Valid() && record.content == ClearedCapsule(old(record.content))
  {
    record.ClearPath(REQUEST_PATH);
    record.ClearPath(ARGUMENTS_PATH);
  }
}
