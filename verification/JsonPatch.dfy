/**
 JSON Patch (RFC 6902): apply_patch and create_patches of cJSON_Utils.c as functions on trees.
 A patch is itself a JSON object; `Patch` is what a well-formed one says.
 */
module JsonPatch {
  import opened Json
  import opened JsonPointer
  import opened JsonSort
  import opened JsonOrder

  datatype Op = Bad | Add | Remove | Replace | Move | Copy | Test

  /** An operation that needs no "from". */
  datatype Patch = Patch(op: Op, path: string, value: Option<Json>)

  // ----- the last token of a path

  /** strrchr(s, '/'): index of the last slash, or -1 */
  function LastSlash(s: string): (i: int)
    ensures -1 <= i < |s|
    ensures i >= 0 ==> s[i] == '/'
    ensures forall j | i < j < |s| :: s[j] != '/'
  {
    if s == "" then -1
    else if s[|s| - 1] == '/' then |s| - 1
    else LastSlash(s[..|s| - 1])
  }

  lemma {:induction false} LastSlashAppend(a: string, b: string)
    ensures LastSlash(b) >= 0 ==> LastSlash(a + b) == |a| + LastSlash(b)
    ensures LastSlash(b) < 0 ==> LastSlash(a + b) == LastSlash(a)
    decreases |b|
  {
    if b == "" {
      assert a + b == a;
    } else {
      assert (a + b)[..|a + b| - 1] == a + b[..|b| - 1];
      if b[|b| - 1] != '/' { LastSlashAppend(a, b[..|b| - 1]); }
    }
  }

  lemma {:induction false} NoSlash(s: string)
    requires '/' !in s
    ensures LastSlash(s) == -1
  {
    if s != "" { NoSlash(s[..|s| - 1]); }
  }

  // ----- changes to one container

  /** detach_path once the parent has been found: the parent without the child */
  function DetachFrom(parent: Json, token: string): Option<(Json, Json)>
  {
    var child := DecodeInplace(token);
    match parent
    case Array(items) =>
      var n := DecodeIndex(child);
      if n.None? || n.value >= |items| then None
      else Some((items[n.value], Array(RemoveAt(items, n.value))))
    case Object(ms) =>
      var i := Find(ms, child, false);
      if i == |ms| then None else Some((ms[i].value, Object(RemoveAt(ms, i))))
    case _ => None
  }

  /** The members of an object without the first one of this name. */
  function Without(ms: seq<Member>, key: string, cs: bool): seq<Member>
  {
    var i := Find(ms, key, cs);
    if i == |ms| then ms else RemoveAt(ms, i)
  }

  /** apply_patch once the parent has been found: status, and the parent with the value added */
  function AddTo(parent: Json, token: string, v: Json, cs: bool): (int, Json)
  {
    var child := DecodeInplace(token);
    match parent
    case Array(items) =>
      if child == "-" then (0, Array(items + [v]))
      else
        var n := DecodeIndex(child);
        if n.None? then (11, parent)
        else if n.value > |items| then (10, parent)
        else (0, Array(items[..n.value] + [v] + items[n.value..]))
    case Object(ms) => (0, Object(Without(ms, child, cs) + [Member(child, v)]))
    case _ => (9, parent)
  }

  /** Find the parent a path leads to and change it in place: what `change` gives for the parent
      and the last token, with the whole tree in place of the parent. */
  function AtParent(root: Json, path: string, change: (Json, string) -> Option<(Json, Json)>, cs: bool): Option<(Json, Json)>
  {
    var i := LastSlash(path);
    if i < 0 then None
    else
      var loc := Resolve(root, path[..i], cs);
      if loc.None? then None
      else
        var r := change(NodeAt(root, loc.value), path[i + 1..]);
        if r.None? then None else Some((r.value.0, Put(root, loc.value, r.value.1)))
  }

  /** detach_path: the detached value and the tree that is left */
  function Detach(root: Json, path: string, cs: bool): Option<(Json, Json)>
  {
    AtParent(root, path, DetachFrom, cs)
  }

  /** As AtParent, for a change that reports a status; 9 if there is no parent. */
  function StatusAtParent(root: Json, path: string, change: (Json, string) -> (int, Json), cs: bool): (int, Json)
  {
    var i := LastSlash(path);
    if i < 0 then (9, root)
    else
      var loc := Resolve(root, path[..i], cs);
      if loc.None? then (9, root)
      else
        var (status, parent) := change(NodeAt(root, loc.value), path[i + 1..]);
        (status, Put(root, loc.value, parent))
  }

  /** The part of apply_patch that adds a value at a path. */
  function AddAt(root: Json, path: string, v: Json, cs: bool): (int, Json)
  {
    StatusAtParent(root, path, (parent: Json, token: string) => AddTo(parent, token, v, cs), cs)
  }

  // ----- apply_patch

  function Item(j: Json, name: string, cs: bool): Option<Json>
  {
    if j.Object? && Find(j.members, name, cs) < |j.members|
    then Some(j.members[Find(j.members, name, cs)].value) else None
  }

  /** decode_patch_operation */
  function DecodeOp(patch: Json, cs: bool): Op
  {
    var op := Item(patch, "op", cs);
    if op.None? || !op.value.String? then Bad
    else if op.value.s == "add" then Add
    else if op.value.s == "remove" then Remove
    else if op.value.s == "replace" then Replace
    else if op.value.s == "move" then Move
    else if op.value.s == "copy" then Copy
    else if op.value.s == "test" then Test
    else Bad
  }

  /** add, remove and replace; the second component is the tree left behind, also on failure */
  function ApplyOp(root: Json, p: Patch, cs: bool): (int, Json)
    requires p.op.Add? || p.op.Remove? || p.op.Replace?
  {
    if p.path == "" then
      if p.op.Remove? then (0, Invalid)
      else if p.value.None? then (7, root)
      else (0, p.value.value)
    else if p.op.Add? then
      if p.value.None? then (7, root) else AddAt(root, p.path, p.value.value, cs)
    else
      var d := Detach(root, p.path, cs);
      if d.None? then (13, root)
      else if p.op.Remove? then (0, d.value.1)
      else if p.value.None? then (7, d.value.1)
      else AddAt(d.value.1, p.path, p.value.value, cs)
  }

  /** move and copy. A "from" that is not a string makes move read through a null pointer, which
      is outside what the code promises; copy then reports status 5. */
  function ApplyFrom(root: Json, move: bool, path: string, from: Option<Json>, cs: bool): (int, Json)
  {
    if from.None? then (4, root)
    else if !from.value.String? then (5, root)
    else if move then
      var d := Detach(root, from.value.s, cs);
      if d.None? then (5, root) else AddAt(d.value.1, path, d.value.0, cs)
    else
      var loc := Resolve(root, from.value.s, cs);
      if loc.None? then (5, root) else AddAt(root, path, NodeAt(root, loc.value), cs)
  }

  /** apply_patch; test leaves the members it has compared sorted */
  function ApplyPatch(root: Json, patch: Json, cs: bool): (int, Json)
  {
    var path, op := Item(patch, "path", cs), DecodeOp(patch, cs);
    if path.None? || !path.value.String? then (2, root)
    else if op.Bad? then (3, root)
    else if op.Test? then
      var loc, v := Resolve(root, path.value.s, cs), Item(patch, "value", cs);
      if loc.None? || v.None? then (1, root)
      else
        var node := NodeAt(root, loc.value);
        (if CompareJson(node, v.value, cs) then 0 else 1, Put(root, loc.value, Left(node, v.value, cs).0))
    else if op.Move? || op.Copy? then
      ApplyFrom(root, op.Move?, path.value.s, Item(patch, "from", cs), cs)
    else ApplyOp(root, Patch(op, path.value.s, Item(patch, "value", cs)), cs)
  }

  function ApplyEach(root: Json, patches: seq<Json>, cs: bool): (int, Json)
    decreases |patches|
  {
    if patches == [] then (0, root)
    else
      var (status, r) := ApplyPatch(root, patches[0], cs);
      if status != 0 then (status, r) else ApplyEach(r, patches[1..], cs)
  }

  /** cJSONUtils_ApplyPatches */
  function ApplyPatches(root: Json, patches: Json, cs: bool): (int, Json)
  {
    if !patches.Array? then (1, root) else ApplyEach(root, patches.items, cs)
  }

  // ----- create_patches

  function OpName(op: Op): string
  {
    match op
    case Add => "add"
    case Remove => "remove"
    case Replace => "replace"
    case Move => "move"
    case Copy => "copy"
    case Test => "test"
    case Bad => ""
  }

  /** compose_patch */
  function ToJson(p: Patch): Json
  {
    Object([Member("op", String(OpName(p.op))), Member("path", String(p.path))]
           + if p.value.Some? then [Member("value", p.value.value)] else [])
  }

  function Prefixed(prefix: string, ps: seq<Patch>): (r: seq<Patch>)
    ensures |r| == |ps|
    ensures forall i | 0 <= i < |ps| :: r[i] == ps[i].(path := prefix + ps[i].path)
  {
    seq(|ps|, i requires 0 <= i < |ps| => ps[i].(path := prefix + ps[i].path))
  }

  predicate SameType(a: Json, b: Json)
  {
    && a.Invalid? == b.Invalid? && a.Null? == b.Null? && a.False? == b.False? && a.True? == b.True?
    && a.Number? == b.Number? && a.String? == b.String? && a.Array? == b.Array?
  }

  function Removals(index: nat, n: nat): seq<Patch>
  {
    if n == 0 then [] else [Patch(Remove, "/" + Decimal(index), None)] + Removals(index, n - 1)
  }

  function Additions(vs: seq<Json>): seq<Patch>
  {
    if vs == [] then [] else [Patch(Add, "/-", Some(vs[0]))] + Additions(vs[1..])
  }

  /** The patches create_patches generates, with paths relative to `from` (case-sensitive). */
  function Diff(from: Json, to: Json): seq<Patch>
    decreases from, 1
  {
    if !SameType(from, to) then [Patch(Replace, "", Some(to))]
    else
      match from
      case Number(d) => if CloseNumber(d, to.d) then [] else [Patch(Replace, "", Some(to))]
      case String(s) => if s == to.s then [] else [Patch(Replace, "", Some(to))]
      case Array(items) => DiffItems(items, to.items, 0)
      case Object(ms) => (SortMembers(ms, true); DiffMembers(from, Sort(ms, true), Sort(to.members, true)))
      case _ => []
  }

  function DiffItems(fs: seq<Json>, ts: seq<Json>, i: nat): seq<Patch>
    requires i <= |fs| && i <= |ts|
    decreases Array(fs), 0, |fs| - i
  {
    if i < |fs| && i < |ts| then
      Prefixed("/" + Decimal(i), Diff(fs[i], ts[i])) + DiffItems(fs, ts, i + 1)
    else Removals(i, |fs| - i) + Additions(ts[i..])
  }

  /** The merge join over two sorted member lists of the object `top`. */
  function DiffMembers(ghost top: Json, fs: seq<Member>, ts: seq<Member>): seq<Patch>
    requires top.Object? && forall m | m in fs :: m in top.members
    decreases top, 0, |fs| + |ts|
  {
    if fs == [] && ts == [] then []
    else
      var diff := if fs == [] then 1 else if ts == [] then -1 else Compare(fs[0].key, ts[0].key, true);
      if diff == 0 then
        assert fs[0] in fs && fs[0] in top.members;
        Prefixed("/" + Encode(fs[0].key), Diff(fs[0].value, ts[0].value)) + DiffMembers(top, fs[1..], ts[1..])
      else if diff < 0 then
        [Patch(Remove, "/" + Encode(fs[0].key), None)] + DiffMembers(top, fs[1..], ts)
      else
        [Patch(Add, "/" + Encode(ts[0].key), Some(ts[0].value))] + DiffMembers(top, fs, ts[1..])
  }

  /** cJSONUtils_GeneratePatchesCaseSensitive */
  function GeneratePatches(from: Json, to: Json): Json
  {
    var ps := Diff(from, to);
    Array(seq(|ps|, i requires 0 <= i < |ps| => ToJson(ps[i])))
  }
}
