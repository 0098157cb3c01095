/**
 * The visual editor's structural edits. Each one copies the document, walks a
 * path of keys (array indices as decimal text) to a target object or array,
 * and makes one change there; the copy becomes the new document.
 */
module TreeEditor {
  import opened Wrappers
  import opened Text
  import opened Json
  import opened Coercion

  /** Why an edit leaves the document as it was. */
  datatype EditError =
    | PathNotFound          // a step of the path is missing, so the walk reaches undefined and throws
    | WrongKind             // the target cannot take the change (push on an object, write to a primitive, ...)
    | DuplicateKey(key: string)  // a rename onto a key that is already defined ("Key already exists")

  /** The one change an edit makes at its target. */
  datatype Change =
    | Assign(key: string, value: Json)        // target[key] = value
    | Delete(key: string)                     // delete target[key]
    | Rename(oldKey: string, newKey: string)  // move target[oldKey] to target[newKey]
    | Push                                    // target.push("")
    | Splice(index: nat)                      // target.splice(index, 1)
    | Swap(i: nat, j: nat)                    // [target[i], target[j]] = [target[j], target[i]]
    | SwapDownUnlessLast(index: nat)          // the same with j = index + 1, unless index is the last

  // ---------------------------------------------------------------------------
  // Array slots
  // ---------------------------------------------------------------------------

  /** `a[i]`: past the end it reads undefined, which JSON.stringify writes as null. */
  function Slot(items: seq<Json>, i: nat): Json {
    if i < |items| then items[i] else JNull
  }

  /** `a[i] = v`: in bounds a replacement; past the end the array grows and its holes are null. */
  function SetSlot(items: seq<Json>, i: nat, v: Json): (r: seq<Json>)
    ensures |r| == if i < |items| then |items| else i + 1
    ensures r[i] == v
    ensures forall j :: 0 <= j < |r| && j != i ==> r[j] == Slot(items, j)
  {
    if i < |items| then items[i := v]
    else items + seq(i - |items|, _ => JNull) + [v]
  }

  /** The destructuring swap `[a[i], a[j]] = [a[j], a[i]]`: both reads happen before either write. */
  function SwapSlots(items: seq<Json>, i: nat, j: nat): seq<Json> {
    SetSlot(SetSlot(items, i, Slot(items, j)), j, Slot(items, i))
  }

  /** Within bounds the swap exchanges exactly two elements and permutes the array. */
  lemma SwapInBounds(items: seq<Json>, i: nat, j: nat)
    requires i < |items| && j < |items|
    ensures var r := SwapSlots(items, i, j);
            && |r| == |items|
            && r[i] == items[j] && r[j] == items[i]
            && (forall k :: 0 <= k < |r| && k != i && k != j ==> r[k] == items[k])
            && multiset(r) == multiset(items)
  {
    assert SwapSlots(items, i, j) == items[i := items[j]][j := items[i]];
  }

  lemma SwapTwice(items: seq<Json>, i: nat, j: nat)
    requires i < |items| && j < |items|
    ensures SwapSlots(SwapSlots(items, i, j), j, i) == items
  {
    SwapInBounds(items, i, j);
    var r := SwapSlots(items, i, j);
    SwapInBounds(r, j, i);
  }

  lemma SetSlotWf(items: seq<Json>, i: nat, v: Json)
    requires forall k :: 0 <= k < |items| ==> Wf(items[k])
    requires Wf(v)
    ensures forall k :: 0 <= k < |SetSlot(items, i, v)| ==> Wf(SetSlot(items, i, v)[k])
  {
    var r := SetSlot(items, i, v);
    forall k | 0 <= k < |r| ensures Wf(r[k]) {
      if k != i { assert r[k] == Slot(items, k); }
    }
  }

  // ---------------------------------------------------------------------------
  // The change at the target
  // ---------------------------------------------------------------------------

  /** Names every object inherits from Object.prototype: `o[name] !== undefined` even when absent. */
  const InheritedNames: set<string> := {
    "constructor", "hasOwnProperty", "isPrototypeOf", "propertyIsEnumerable",
    "toLocaleString", "toString", "valueOf", "__proto__",
    "__defineGetter__", "__defineSetter__", "__lookupGetter__", "__lookupSetter__"
  }

  /** `o[key] !== undefined` for an object with members `ms`. */
  predicate IsDefinedKey(ms: Members, key: string) {
    HasKey(ms, key) || key in InheritedNames
  }

  /** A change whose written values are well-formed. */
  predicate ChangeWf(c: Change) {
    c.Assign? ==> Wf(c.value)
  }

  function ApplyChange(t: Json, c: Change): Result<Json, EditError> {
    match c
    case Assign(key, value) =>
      (match t
       case JObject(ms) => Ok(JObject(Put(ms, key, value)))
       case JArray(items) =>
         (match ArrayIndex(key)
          case Some(i) => Ok(JArray(SetSlot(items, i, value)))
          case None => Ok(t))   // a named property on an array is not serialised
       case _ => Err(WrongKind))
    case Delete(key) =>
      (match t
       case JObject(ms) => Ok(JObject(Remove(ms, key)))
       case JArray(items) =>
         (match ArrayIndex(key)
          case Some(i) => if i < |items| then Ok(JArray(items[i := JNull])) else Ok(t)
          case None => Ok(t))
       case _ => Err(WrongKind))
    case Rename(oldKey, newKey) =>
      (match t
       case JObject(ms) =>
         if IsDefinedKey(ms, newKey) then Err(DuplicateKey(newKey))
         else
           (match Lookup(ms, oldKey)
            case None => Ok(t)   // the moved value is undefined and is not serialised
            case Some(value) => Ok(JObject(Put(Remove(ms, oldKey), newKey, value))))
       case _ => Err(WrongKind))
    case Push =>
      if t.JArray? then Ok(JArray(t.items + [JString("")])) else Err(WrongKind)
    case Splice(index) =>
      if !t.JArray? then Err(WrongKind)
      else if index < |t.items| then Ok(JArray(t.items[..index] + t.items[index + 1..]))
      else Ok(t)
    case Swap(i, j) =>
      if t.JArray? then Ok(JArray(SwapSlots(t.items, i, j))) else Err(WrongKind)
    case SwapDownUnlessLast(index) =>
      if !t.JArray? then Err(WrongKind)
      else if index + 1 == |t.items| then Ok(t)
      else Ok(JArray(SwapSlots(t.items, index, index + 1)))
  }

  lemma ApplyChangeWf(t: Json, c: Change)
    requires Wf(t) && ChangeWf(c) && ApplyChange(t, c).Ok?
    ensures Wf(ApplyChange(t, c).value)
  {
    match c
    case Assign(key, value) =>
      if t.JObject? { PutWf(t.members, key, value); }
      else if t.JArray? && ArrayIndex(key).Some? { SetSlotWf(t.items, ArrayIndex(key).value, value); }
    case Delete(key) =>
      if t.JObject? { RemoveWf(t.members, key); }
    case Rename(oldKey, newKey) =>
      var ms := t.members;
      if Lookup(ms, oldKey).Some? {
        RemoveWf(ms, oldKey);
        LookupWf(ms, oldKey);
        PutWf(Remove(ms, oldKey), newKey, Lookup(ms, oldKey).value);
      }
    case Push =>
    case Splice(index) =>
      if index < |t.items| { SpliceWf(t.items, index); }
    case Swap(i, j) =>
      SwapSlotsWf(t.items, i, j);
    case SwapDownUnlessLast(index) =>
      SwapSlotsWf(t.items, index, index + 1);
  }

  lemma SpliceWf(items: seq<Json>, index: nat)
    requires index < |items| && forall k :: 0 <= k < |items| ==> Wf(items[k])
    ensures var r := items[..index] + items[index + 1..];
            forall k :: 0 <= k < |r| ==> Wf(r[k])
  {
    var r := items[..index] + items[index + 1..];
    assert forall k :: 0 <= k < |r| ==> r[k] == items[if k < index then k else k + 1];
  }

  lemma SwapSlotsWf(items: seq<Json>, i: nat, j: nat)
    requires forall k :: 0 <= k < |items| ==> Wf(items[k])
    ensures forall k :: 0 <= k < |SwapSlots(items, i, j)| ==> Wf(SwapSlots(items, i, j)[k])
  {
    SetSlotWf(items, i, Slot(items, j));
    SetSlotWf(SetSlot(items, i, Slot(items, j)), j, Slot(items, i));
  }

  // ---------------------------------------------------------------------------
  // Copy-on-write editing at a path
  // ---------------------------------------------------------------------------

  /** Apply a change at the end of a path, rebuilding the ancestors around the new target. */
  function EditAt(v: Json, path: Path, c: Change): (r: Result<Json, EditError>)
    ensures Walk(v, path).None? ==> r == Err(PathNotFound)
    ensures Walk(v, path).Some? && ApplyChange(Walk(v, path).value, c).Err? ==>
              r == ApplyChange(Walk(v, path).value, c)
    ensures Walk(v, path).Some? && ApplyChange(Walk(v, path).value, c).Ok? ==> r.Ok?
    ensures r.Ok? ==> Walk(r.value, path) == Some(ApplyChange(Walk(v, path).value, c).value)
    decreases |path|
  {
    if path == [] then ApplyChange(v, c)
    else
      match Child(v, path[0])
      case None => Err(PathNotFound)
      case Some(child) =>
        match EditAt(child, path[1..], c)
        case Err(e) => Err(e)
        case Ok(child') => Ok(SetChild(v, path[0], child'))
  }

  /** Two paths that part ways at some step: neither lies inside the other. */
  predicate Diverges(p: Path, q: Path)
    decreases |p|
  {
    p != [] && q != [] && (p[0] != q[0] || Diverges(p[1..], q[1..]))
  }

  /** Nothing else changes: every node off the edited path is as it was. */
  lemma {:induction false} EditAtFrame(v: Json, path: Path, c: Change, q: Path)
    requires EditAt(v, path, c).Ok?
    requires Diverges(path, q)
    ensures Walk(EditAt(v, path, c).value, q) == Walk(v, q)
    decreases |path|
  {
    var child := Child(v, path[0]).value;
    var child' := EditAt(child, path[1..], c).value;
    var r := SetChild(v, path[0], child');
    if path[0] != q[0] {
      assert Child(r, q[0]) == Child(v, q[0]);
    } else {
      EditAtFrame(child, path[1..], c, q[1..]);
    }
  }

  /** Edits keep every object's keys distinct. */
  lemma {:induction false} EditAtWf(v: Json, path: Path, c: Change)
    requires Wf(v) && ChangeWf(c) && EditAt(v, path, c).Ok?
    ensures Wf(EditAt(v, path, c).value)
    decreases |path|
  {
    if path == [] {
      ApplyChangeWf(v, c);
    } else {
      var child := Child(v, path[0]).value;
      ChildWf(v, path[0]);
      EditAtWf(child, path[1..], c);
      SetChildWf(v, path[0], EditAt(child, path[1..], c).value);
    }
  }

  lemma SetChildSame(v: Json, key: string)
    requires Child(v, key).Some?
    ensures SetChild(v, key, Child(v, key).value) == v
  {
    if v.JObject? {
      PutSame(v.members, key);
    }
  }

  lemma {:induction false} PutSame(ms: Members, k: string)
    requires HasKey(ms, k)
    ensures Put(ms, k, Lookup(ms, k).value) == ms
    decreases |ms|
  {
    if ms[0].0 != k {
      PutSame(ms[1..], k);
    }
  }

  lemma {:induction false} PutTwice(ms: Members, k: string, a: Json, b: Json)
    requires HasKey(ms, k)
    ensures Put(Put(ms, k, a), k, b) == Put(ms, k, b)
    decreases |ms|
  {
    if ms[0].0 != k {
      PutTwice(ms[1..], k, a, b);
      assert Put(ms, k, a)[1..] == Put(ms[1..], k, a);
    }
  }

  lemma SetChildTwice(v: Json, key: string, a: Json, b: Json)
    requires Child(v, key).Some?
    ensures SetChild(SetChild(v, key, a), key, b) == SetChild(v, key, b)
  {
    if v.JObject? {
      PutTwice(v.members, key, a, b);
    }
  }

  /** A change that leaves its target as it was leaves the whole document as it was. */
  lemma {:induction false} EditAtIdentity(v: Json, path: Path, c: Change)
    requires Walk(v, path).Some?
    requires ApplyChange(Walk(v, path).value, c) == Ok(Walk(v, path).value)
    ensures EditAt(v, path, c) == Ok(v)
    decreases |path|
  {
    if path != [] {
      var child := Child(v, path[0]).value;
      EditAtIdentity(child, path[1..], c);
      SetChildSame(v, path[0]);
    }
  }

  /** A second change that restores the target undoes the first edit on the whole document. */
  lemma {:induction false} EditAtUndo(v: Json, path: Path, c1: Change, c2: Change)
    requires Walk(v, path).Some?
    requires ApplyChange(Walk(v, path).value, c1).Ok?
    requires ApplyChange(ApplyChange(Walk(v, path).value, c1).value, c2) == Ok(Walk(v, path).value)
    ensures EditAt(EditAt(v, path, c1).value, path, c2) == Ok(v)
    decreases |path|
  {
    if path != [] {
      var k := path[0];
      var child := Child(v, k).value;
      EditAtUndo(child, path[1..], c1, c2);
      var child1 := EditAt(child, path[1..], c1).value;
      var v1 := SetChild(v, k, child1);
      assert Child(v1, k) == Some(child1);
      SetChildTwice(v, k, child1, child);
      SetChildSame(v, k);
    }
  }

  // ---------------------------------------------------------------------------
  // Targets
  // ---------------------------------------------------------------------------

  /** The members of the object at `path`, if the path leads to an object. */
  function MembersAt(v: Json, path: Path): Option<Members> {
    match Walk(v, path)
    case Some(JObject(ms)) => Some(ms)
    case _ => None
  }

  /** The elements of the array at `path`, if the path leads to an array. */
  function ItemsAt(v: Json, path: Path): Option<seq<Json>> {
    match Walk(v, path)
    case Some(JArray(items)) => Some(items)
    case _ => None
  }

  /** The path leads to a value that is neither an object nor an array. */
  predicate IsPrimitiveAt(v: Json, path: Path) {
    Walk(v, path).Some? && !Walk(v, path).value.JObject? && !Walk(v, path).value.JArray?
  }

  lemma {:induction false} WalkAppend(v: Json, path: Path, key: string)
    ensures Walk(v, path + [key]) ==
              if Walk(v, path).Some? then Child(Walk(v, path).value, key) else None
    decreases |path|
  {
    if path == [] {
      assert [] + [key] == [key];
    } else {
      assert (path + [key])[1..] == path[1..] + [key];
      match Child(v, path[0])
      case None =>
      case Some(c) => WalkAppend(c, path[1..], key);
    }
  }

  /** The array renderer's path for element i, with i written as text, leads to that element. */
  lemma PathToElement(v: Json, path: Path, i: nat)
    requires ItemsAt(v, path).Some? && i < |ItemsAt(v, path).value|
    requires i < MaxArrayLength  // a JavaScript array never holds more elements
    ensures Walk(v, path + [IndexSegment(i)]) == Some(ItemsAt(v, path).value[i])
  {
    WalkAppend(v, path, IndexSegment(i));
    ArrayIndexOfText(i);
  }

  // ---------------------------------------------------------------------------
  // The editor's operations
  // ---------------------------------------------------------------------------

  /** Object.keys(v).length for the root document. */
  function KeyCount(v: Json): nat {
    match v
    case JObject(ms) => |ms|
    case JArray(items) => |items|
    case JString(s) => |s|
    case _ => 0
  }

  /** "newKey" followed by one more than the number of keys of the ROOT document. */
  function NewKeyName(root: Json): string {
    "newKey" + NatToString(KeyCount(root) + 1)
  }

  lemma NewKeyIsNoIndex(root: Json)
    ensures ArrayIndex(NewKeyName(root)) == None
  {
    assert NewKeyName(root)[0] == 'n';
  }

  /** addKeyValue: the target object gets the generated key, mapped to the empty string. */
  function AddKeyValue(root: Json, path: Path): (r: Result<Json, EditError>)
    ensures Walk(root, path).None? ==> r == Err(PathNotFound)
    ensures IsPrimitiveAt(root, path) ==> r == Err(WrongKind)
    ensures ItemsAt(root, path).Some? ==> r == Ok(root)
    ensures MembersAt(root, path).Some? ==>
              && r.Ok? && MembersAt(r.value, path).Some?
              && var before, after := MembersAt(root, path).value, MembersAt(r.value, path).value;
              && Lookup(after, NewKeyName(root)) == Some(JString(""))
              && (forall k :: k != NewKeyName(root) ==> Lookup(after, k) == Lookup(before, k))
              && (!HasKey(before, NewKeyName(root)) ==> Keys(after) == Keys(before) + [NewKeyName(root)])
              && (HasKey(before, NewKeyName(root)) ==> Keys(after) == Keys(before))
    ensures Wf(root) && r.Ok? ==> Wf(r.value)
  {
    var c := Assign(NewKeyName(root), JString(""));
    if ItemsAt(root, path).Some? then
      NewKeyIsNoIndex(root);
      EditAtIdentity(root, path, c);
      EditAt(root, path, c)
    else
      var r := EditAt(root, path, c);
      if Wf(root) && r.Ok? then EditAtWf(root, path, c); r else r
  }

  /**
   * `after` is the object `before` with member `key` deleted: the key reads
   * as absent, every other key reads as before, and with distinct keys the
   * one member carrying `key` is cut out, the rest keeping their order.
   */
  ghost predicate DeletedFrom(before: Members, after: Members, key: string) {
    && Lookup(after, key) == None
    && (forall k :: k != key ==> Lookup(after, k) == Lookup(before, k))
    && (UniqueKeys(before) && HasKey(before, key) ==>
          after == before[..KeyIndex(before, key)] + before[KeyIndex(before, key) + 1..])
  }

  lemma RemoveDeletes(ms: Members, key: string)
    ensures DeletedFrom(ms, Remove(ms, key), key)
  {
    if UniqueKeys(ms) && HasKey(ms, key) {
      RemoveSplices(ms, key);
    }
  }

  /**
   * `after` is the object `before` with member `oldKey` renamed `newKey`: the
   * value moves to the new key, which is the last member, the old key reads as
   * absent and all other keys read as before; with distinct keys the old member
   * is cut out, the rest keep their order and the moved one is appended.
   */
  ghost predicate RenamedIn(before: Members, after: Members, oldKey: string, newKey: string) {
    && Lookup(after, newKey) == Lookup(before, oldKey)
    && Lookup(after, oldKey) == None
    && (forall k :: k != oldKey && k != newKey ==> Lookup(after, k) == Lookup(before, k))
    && after != [] && after[|after| - 1].0 == newKey
    && (UniqueKeys(before) && HasKey(before, oldKey) ==>
          && |after| == |before|
          && var p := KeyIndex(before, oldKey);
             after == before[..p] + before[p + 1..] + [(newKey, before[p].1)])
  }

  lemma RemovePutRenames(ms: Members, oldKey: string, newKey: string)
    requires HasKey(ms, oldKey) && !HasKey(ms, newKey) && oldKey != newKey
    ensures RenamedIn(ms, Put(Remove(ms, oldKey), newKey, Lookup(ms, oldKey).value), oldKey, newKey)
  {
    assert !HasKey(Remove(ms, oldKey), newKey);
    if UniqueKeys(ms) {
      RemoveSplices(ms, oldKey);
    }
  }

  /** removeKeyValue: the key is gone from the target object; all else stays. */
  function RemoveKeyValue(root: Json, key: string, path: Path): (r: Result<Json, EditError>)
    ensures Walk(root, path).None? ==> r == Err(PathNotFound)
    ensures IsPrimitiveAt(root, path) ==> r == Err(WrongKind)
    ensures MembersAt(root, path).Some? ==>
              && r.Ok? && MembersAt(r.value, path).Some?
              && DeletedFrom(MembersAt(root, path).value, MembersAt(r.value, path).value, key)
    ensures MembersAt(root, path).Some? && !HasKey(MembersAt(root, path).value, key) ==> r == Ok(root)
    ensures ItemsAt(root, path).Some? ==>
              r.Ok? && ItemsAt(r.value, path) ==
                Some(var items := ItemsAt(root, path).value;
                     if ArrayIndex(key).Some? && ArrayIndex(key).value < |items|
                     then items[ArrayIndex(key).value := JNull] else items)
    ensures Wf(root) && r.Ok? ==> Wf(r.value)
  {
    var c := Delete(key);
    if MembersAt(root, path).Some? && !HasKey(MembersAt(root, path).value, key) then
      EditAtIdentity(root, path, c);
      EditAt(root, path, c)
    else
      EditDeletesMember(root, key, path);
      EditDeletesElement(root, key, path);
      var r := EditAt(root, path, c);
      if MembersAt(root, path).Some? then
        RemoveDeletes(MembersAt(root, path).value, key);
        if Wf(root) && r.Ok? then EditAtWf(root, path, c); r else r
      else if Wf(root) && r.Ok? then EditAtWf(root, path, c); r else r
  }

  /** Deleting a key of the object at `path` leaves the object without that member. */
  lemma EditDeletesMember(root: Json, key: string, path: Path)
    ensures MembersAt(root, path).Some? ==>
              && EditAt(root, path, Delete(key)).Ok?
              && MembersAt(EditAt(root, path, Delete(key)).value, path) == Some(Remove(MembersAt(root, path).value, key))
  {
  }

  /** `delete` on an array element index leaves a hole, read back as null; other names change nothing. */
  lemma EditDeletesElement(root: Json, key: string, path: Path)
    ensures ItemsAt(root, path).Some? ==>
              && EditAt(root, path, Delete(key)).Ok?
              && ItemsAt(EditAt(root, path, Delete(key)).value, path) ==
                   Some(var items := ItemsAt(root, path).value;
                        if ArrayIndex(key).Some? && ArrayIndex(key).value < |items|
                        then items[ArrayIndex(key).value := JNull] else items)
  {
  }

  /** updateKey: rename a key of the target object, refusing a key that is already defined. */
  function UpdateKey(root: Json, oldKey: string, newKey: string, path: Path): (r: Result<Json, EditError>)
    ensures oldKey == newKey ==> r == Ok(root)
    ensures oldKey != newKey && Walk(root, path).None? ==> r == Err(PathNotFound)
    ensures oldKey != newKey && Walk(root, path).Some? && !Walk(root, path).value.JObject? ==>
              r == Err(WrongKind)
    ensures oldKey != newKey && MembersAt(root, path).Some? &&
            IsDefinedKey(MembersAt(root, path).value, newKey) ==>
              r == Err(DuplicateKey(newKey))
    ensures oldKey != newKey && MembersAt(root, path).Some? &&
            !IsDefinedKey(MembersAt(root, path).value, newKey) &&
            !HasKey(MembersAt(root, path).value, oldKey) ==>
              r == Ok(root)
    ensures oldKey != newKey && MembersAt(root, path).Some? &&
            !IsDefinedKey(MembersAt(root, path).value, newKey) &&
            HasKey(MembersAt(root, path).value, oldKey) ==>
              && r.Ok? && MembersAt(r.value, path).Some?
              && RenamedIn(MembersAt(root, path).value, MembersAt(r.value, path).value, oldKey, newKey)
    ensures Wf(root) && r.Ok? ==> Wf(r.value)
  {
    if oldKey == newKey then Ok(root)
    else
      var c := Rename(oldKey, newKey);
      if MembersAt(root, path).Some? && !IsDefinedKey(MembersAt(root, path).value, newKey) &&
         !HasKey(MembersAt(root, path).value, oldKey) then
        EditAtIdentity(root, path, c);
        EditAt(root, path, c)
      else
        EditRenamesMember(root, oldKey, newKey, path);
        var r := EditAt(root, path, c);
        if MembersAt(root, path).Some? && !IsDefinedKey(MembersAt(root, path).value, newKey) &&
           HasKey(MembersAt(root, path).value, oldKey) then
          RemovePutRenames(MembersAt(root, path).value, oldKey, newKey);
          if Wf(root) && r.Ok? then EditAtWf(root, path, c); r else r
        else if Wf(root) && r.Ok? then EditAtWf(root, path, c); r else r
  }

  /** Renaming an existing key of the object at `path` moves its value to the new key, placed last. */
  lemma EditRenamesMember(root: Json, oldKey: string, newKey: string, path: Path)
    ensures MembersAt(root, path).Some? && !IsDefinedKey(MembersAt(root, path).value, newKey) &&
            HasKey(MembersAt(root, path).value, oldKey) ==>
              var before := MembersAt(root, path).value;
              && EditAt(root, path, Rename(oldKey, newKey)).Ok?
              && MembersAt(EditAt(root, path, Rename(oldKey, newKey)).value, path) ==
                   Some(Put(Remove(before, oldKey), newKey, Lookup(before, oldKey).value))
  {
  }

  /** updateValue: write the coerced input into slot `key` of the target object or array. */
  function UpdateValue(root: Json, key: string, raw: Json, t: ValueType, num: NumberText, path: Path)
    : (r: Result<Json, EditError>)
    ensures Walk(root, path).None? ==> r == Err(PathNotFound)
    ensures IsPrimitiveAt(root, path) ==> r == Err(WrongKind)
    ensures MembersAt(root, path).Some? ==>
              && r.Ok? && MembersAt(r.value, path).Some?
              && var before, after := MembersAt(root, path).value, MembersAt(r.value, path).value;
              && Lookup(after, key) == Some(Coerce(raw, t, num))
              && (forall k :: k != key ==> Lookup(after, k) == Lookup(before, k))
              && (HasKey(before, key) ==> Keys(after) == Keys(before))
    ensures ItemsAt(root, path).Some? && ArrayIndex(key).Some? &&
            ArrayIndex(key).value < |ItemsAt(root, path).value| ==>
              r.Ok? && ItemsAt(r.value, path) ==
                Some(ItemsAt(root, path).value[ArrayIndex(key).value := Coerce(raw, t, num)])
    ensures Wf(root) && r.Ok? ==> Wf(r.value)
  {
    var c := Assign(key, Coerce(raw, t, num));
    var r := EditAt(root, path, c);
    if Wf(root) && r.Ok? then EditAtWf(root, path, c); r else r
  }

  /** addArrayItem: the target array grows by one empty string at the end. */
  function AddArrayItem(root: Json, path: Path): (r: Result<Json, EditError>)
    ensures Walk(root, path).None? ==> r == Err(PathNotFound)
    ensures Walk(root, path).Some? && !Walk(root, path).value.JArray? ==> r == Err(WrongKind)
    ensures ItemsAt(root, path).Some? ==>
              && r.Ok? && ItemsAt(r.value, path).Some?
              && var before, after := ItemsAt(root, path).value, ItemsAt(r.value, path).value;
              && |after| == |before| + 1
              && after[..|before|] == before
              && after[|before|] == JString("")
    ensures Wf(root) && r.Ok? ==> Wf(r.value)
  {
    var r := EditAt(root, path, Push);
    if Wf(root) && r.Ok? then EditAtWf(root, path, Push); r else r
  }

  /** removeArrayItem: element `index` is dropped; the others keep their order. */
  function RemoveArrayItem(root: Json, index: nat, path: Path): (r: Result<Json, EditError>)
    ensures Walk(root, path).None? ==> r == Err(PathNotFound)
    ensures Walk(root, path).Some? && !Walk(root, path).value.JArray? ==> r == Err(WrongKind)
    ensures ItemsAt(root, path).Some? && index < |ItemsAt(root, path).value| ==>
              && r.Ok? && ItemsAt(r.value, path).Some?
              && var before, after := ItemsAt(root, path).value, ItemsAt(r.value, path).value;
              && |after| == |before| - 1
              && (forall j :: 0 <= j < index ==> after[j] == before[j])
              && (forall j :: index <= j < |after| ==> after[j] == before[j + 1])
              && multiset(after) + multiset{before[index]} == multiset(before)
    ensures ItemsAt(root, path).Some? && index >= |ItemsAt(root, path).value| ==> r == Ok(root)
    ensures Wf(root) && r.Ok? ==> Wf(r.value)
  {
    var c := Splice(index);
    if ItemsAt(root, path).Some? && index >= |ItemsAt(root, path).value| then
      EditAtIdentity(root, path, c);
      EditAt(root, path, c)
    else
      if ItemsAt(root, path).Some? then
        EditSplicesAt(root, path, index);
        if Wf(root) then EditAtWf(root, path, c); EditAt(root, path, c) else EditAt(root, path, c)
      else if Wf(root) && EditAt(root, path, c).Ok? then EditAtWf(root, path, c); EditAt(root, path, c)
      else EditAt(root, path, c)
  }

  /** Splicing out an element of the array at `path` closes the gap in the edited tree. */
  lemma EditSplicesAt(root: Json, path: Path, index: nat)
    requires ItemsAt(root, path).Some? && index < |ItemsAt(root, path).value|
    ensures EditAt(root, path, Splice(index)).Ok?
    ensures ItemsAt(EditAt(root, path, Splice(index)).value, path).Some?
    ensures var before, after := ItemsAt(root, path).value, ItemsAt(EditAt(root, path, Splice(index)).value, path).value;
            && |after| == |before| - 1
            && (forall j :: 0 <= j < index ==> after[j] == before[j])
            && (forall j :: index <= j < |after| ==> after[j] == before[j + 1])
            && multiset(after) + multiset{before[index]} == multiset(before)
  {
    var before := ItemsAt(root, path).value;
    var r := EditAt(root, path, Splice(index));
    assert ItemsAt(r.value, path) == Some(before[..index] + before[index + 1..]);
    SpliceOut(before, index);
  }

  /** `splice(index, 1)` within bounds: the element leaves and the rest close up in order. */
  lemma SpliceOut(before: seq<Json>, index: nat)
    requires index < |before|
    ensures var after := before[..index] + before[index + 1..];
            && |after| == |before| - 1
            && (forall j :: 0 <= j < index ==> after[j] == before[j])
            && (forall j :: index <= j < |after| ==> after[j] == before[j + 1])
            && multiset(after) + multiset{before[index]} == multiset(before)
  {
    assert before == before[..index] + [before[index]] + before[index + 1..];
  }

  /** A change that swaps two slots of the array at `path` swaps them in the edited tree. */
  lemma EditSwapsAt(root: Json, path: Path, c: Change, i: nat, j: nat)
    requires ItemsAt(root, path).Some?
    requires i < |ItemsAt(root, path).value| && j < |ItemsAt(root, path).value|
    requires ApplyChange(Walk(root, path).value, c) == Ok(JArray(SwapSlots(ItemsAt(root, path).value, i, j)))
    ensures EditAt(root, path, c).Ok? && ItemsAt(EditAt(root, path, c).value, path).Some?
    ensures var before, after := ItemsAt(root, path).value, ItemsAt(EditAt(root, path, c).value, path).value;
            && |after| == |before|
            && after[i] == before[j] && after[j] == before[i]
            && (forall k :: 0 <= k < |after| && k != i && k != j ==> after[k] == before[k])
            && multiset(after) == multiset(before)
  {
    var before := ItemsAt(root, path).value;
    var r := EditAt(root, path, c);
    assert ItemsAt(r.value, path) == Some(SwapSlots(before, i, j));
    SwapInBounds(before, i, j);
  }

  /** moveArrayItemUp: index 0 is a no-op; otherwise swap with the element above. */
  function MoveArrayItemUp(root: Json, index: nat, path: Path): (r: Result<Json, EditError>)
    ensures index == 0 ==> r == Ok(root)
    ensures index > 0 && Walk(root, path).None? ==> r == Err(PathNotFound)
    ensures index > 0 && Walk(root, path).Some? && !Walk(root, path).value.JArray? ==> r == Err(WrongKind)
    ensures index > 0 && ItemsAt(root, path).Some? && index < |ItemsAt(root, path).value| ==>
              && r.Ok? && ItemsAt(r.value, path).Some?
              && var before, after := ItemsAt(root, path).value, ItemsAt(r.value, path).value;
              && |after| == |before|
              && after[index - 1] == before[index] && after[index] == before[index - 1]
              && (forall j :: 0 <= j < |after| && j != index && j != index - 1 ==> after[j] == before[j])
              && multiset(after) == multiset(before)
    ensures Wf(root) && r.Ok? ==> Wf(r.value)
  {
    if index == 0 then Ok(root)
    else
      var c := Swap(index, index - 1);
      if ItemsAt(root, path).Some? && index < |ItemsAt(root, path).value| then
        EditSwapsAt(root, path, c, index, index - 1);
        if Wf(root) then EditAtWf(root, path, c); EditAt(root, path, c) else EditAt(root, path, c)
      else if Wf(root) && EditAt(root, path, c).Ok? then EditAtWf(root, path, c); EditAt(root, path, c)
      else EditAt(root, path, c)
  }

  /** moveArrayItemDown: the last index is a no-op; otherwise swap with the element below. */
  function MoveArrayItemDown(root: Json, index: nat, path: Path): (r: Result<Json, EditError>)
    ensures Walk(root, path).None? ==> r == Err(PathNotFound)
    ensures Walk(root, path).Some? && !Walk(root, path).value.JArray? ==> r == Err(WrongKind)
    ensures ItemsAt(root, path).Some? && index + 1 == |ItemsAt(root, path).value| ==> r == Ok(root)
    ensures ItemsAt(root, path).Some? && index + 1 < |ItemsAt(root, path).value| ==>
              && r.Ok? && ItemsAt(r.value, path).Some?
              && var before, after := ItemsAt(root, path).value, ItemsAt(r.value, path).value;
              && |after| == |before|
              && after[index] == before[index + 1] && after[index + 1] == before[index]
              && (forall j :: 0 <= j < |after| && j != index && j != index + 1 ==> after[j] == before[j])
              && multiset(after) == multiset(before)
    ensures Wf(root) && r.Ok? ==> Wf(r.value)
  {
    var c := SwapDownUnlessLast(index);
    if ItemsAt(root, path).Some? && index + 1 == |ItemsAt(root, path).value| then
      EditAtIdentity(root, path, c);
      EditAt(root, path, c)
    else
      if ItemsAt(root, path).Some? && index + 1 < |ItemsAt(root, path).value| then
        EditSwapsAt(root, path, c, index, index + 1);
        if Wf(root) then EditAtWf(root, path, c); EditAt(root, path, c) else EditAt(root, path, c)
      else
        assert Walk(root, path).Some? && !Walk(root, path).value.JArray? ==>
                 ApplyChange(Walk(root, path).value, c) == Err(WrongKind);
        if Wf(root) && EditAt(root, path, c).Ok? then EditAtWf(root, path, c); EditAt(root, path, c)
        else EditAt(root, path, c)
  }

  // ---------------------------------------------------------------------------
  // Inverses
  // ---------------------------------------------------------------------------

  lemma {:induction false} RemoveAppended(ms: Members, k: string, v: Json)
    requires !HasKey(ms, k)
    ensures Remove(ms + [(k, v)], k) == ms
    decreases |ms|
  {
    if ms == [] {
    } else {
      assert (ms + [(k, v)])[1..] == ms[1..] + [(k, v)];
      RemoveAppended(ms[1..], k, v);
    }
  }

  /** Moving element `index` up and then moving it back down restores the document. */
  lemma MoveUpThenDown(root: Json, index: nat, path: Path)
    requires ItemsAt(root, path).Some? && 0 < index < |ItemsAt(root, path).value|
    ensures MoveArrayItemUp(root, index, path).Ok?
    ensures MoveArrayItemDown(MoveArrayItemUp(root, index, path).value, index - 1, path) == Ok(root)
  {
    var items := ItemsAt(root, path).value;
    var c1, c2 := Swap(index, index - 1), SwapDownUnlessLast(index - 1);
    SwapTwice(items, index, index - 1);
    SwapInBounds(items, index, index - 1);
    EditAtUndo(root, path, c1, c2);
    MoveUpIsEdit(root, index, path);
    MoveDownIsEdit(EditAt(root, path, c1).value, index - 1, path);
  }

  lemma MoveUpIsEdit(root: Json, index: nat, path: Path)
    requires index > 0
    ensures MoveArrayItemUp(root, index, path) == EditAt(root, path, Swap(index, index - 1))
  {
  }

  lemma MoveDownIsEdit(root: Json, index: nat, path: Path)
    ensures MoveArrayItemDown(root, index, path) == EditAt(root, path, SwapDownUnlessLast(index))
  {
  }

  /** Adding an item and then removing the last item restores the document. */
  lemma AddItemThenRemove(root: Json, path: Path)
    requires ItemsAt(root, path).Some?
    ensures AddArrayItem(root, path).Ok?
    ensures RemoveArrayItem(AddArrayItem(root, path).value, |ItemsAt(root, path).value|, path) == Ok(root)
  {
    var items := ItemsAt(root, path).value;
    var grown := items + [JString("")];
    assert grown[..|items|] + grown[|items| + 1..] == items;
    assert ApplyChange(JArray(grown), Splice(|items|)) == Ok(JArray(items));
    EditAtUndo(root, path, Push, Splice(|items|));
  }

  /** Adding the generated key and then removing it restores the document, when the key was new. */
  lemma AddKeyThenRemove(root: Json, path: Path)
    requires MembersAt(root, path).Some? && !HasKey(MembersAt(root, path).value, NewKeyName(root))
    ensures AddKeyValue(root, path).Ok?
    ensures RemoveKeyValue(AddKeyValue(root, path).value, NewKeyName(root), path) == Ok(root)
  {
    var ms := MembersAt(root, path).value;
    var key := NewKeyName(root);
    var c1, c2 := Assign(key, JString("")), Delete(key);
    assert Walk(root, path) == Some(JObject(ms));
    assert Put(ms, key, JString("")) == ms + [(key, JString(""))];
    RemoveAppended(ms, key, JString(""));
    assert ApplyChange(JObject(ms), c1) == Ok(JObject(ms + [(key, JString(""))]));
    assert ApplyChange(JObject(ms + [(key, JString(""))]), c2) == Ok(JObject(ms));
    EditAtUndo(root, path, c1, c2);
    var root1 := EditAt(root, path, c1).value;
    assert AddKeyValue(root, path) == Ok(root1);
    assert MembersAt(root1, path) == Some(ms + [(key, JString(""))]);
    assert HasKey(ms + [(key, JString(""))], key);
    assert RemoveKeyValue(root1, key, path) == EditAt(root1, path, c2);
  }

  /**
   * Renaming a key and renaming it back restores every value, though the key
   * now comes last; a key named like an inherited property cannot come back.
   */
  lemma RenameBack(root: Json, a: string, b: string, path: Path)
    requires MembersAt(root, path).Some?
    requires a != b && HasKey(MembersAt(root, path).value, a)
    requires !IsDefinedKey(MembersAt(root, path).value, b) && a !in InheritedNames
    ensures UpdateKey(root, a, b, path).Ok?
    ensures var r := UpdateKey(UpdateKey(root, a, b, path).value, b, a, path);
            && r.Ok? && MembersAt(r.value, path).Some?
            && forall k :: Lookup(MembersAt(r.value, path).value, k) == Lookup(MembersAt(root, path).value, k)
  {
    var ms := MembersAt(root, path).value;
    var root1 := UpdateKey(root, a, b, path).value;
    assert MembersAt(root1, path).Some?;
    var ms1 := MembersAt(root1, path).value;
    assert Lookup(ms1, b) == Lookup(ms, a) && Lookup(ms1, a) == None;
    assert HasKey(ms1, b) && !IsDefinedKey(ms1, a);
    var root2 := UpdateKey(root1, b, a, path).value;
    assert MembersAt(root2, path).Some?;
    var ms2 := MembersAt(root2, path).value;
    assert Lookup(ms2, a) == Lookup(ms1, b) && Lookup(ms2, b) == None;
    assert forall k :: k != a && k != b ==> Lookup(ms2, k) == Lookup(ms1, k);
    assert forall k :: k != a && k != b ==> Lookup(ms1, k) == Lookup(ms, k);
    forall k ensures Lookup(ms2, k) == Lookup(ms, k) {
      if k == b { assert Lookup(ms, b) == None; }
    }
  }

  /** Adding a key to {"a":1} at the root yields {"a":1,"newKey2":""}. */
  lemma AddKeyExample()
    ensures AddKeyValue(JObject([("a", JNumber(Decimal(1, 0)))]), []) ==
              Ok(JObject([("a", JNumber(Decimal(1, 0))), ("newKey2", JString(""))]))
  {
    var ms := [("a", JNumber(Decimal(1, 0)))];
    assert NewKeyName(JObject(ms)) == "newKey2" by {
      assert DigitChar(2) == '2';
    }
    assert Put(ms, "newKey2", JString("")) == ms + [("newKey2", JString(""))] by {
      assert ms[1..] == [];
    }
    assert Walk(JObject(ms), []) == Some(JObject(ms));
    var c := Assign("newKey2", JString(""));
    assert AddKeyValue(JObject(ms), []) == EditAt(JObject(ms), [], c);
    assert EditAt(JObject(ms), [], c) == ApplyChange(JObject(ms), c);
    assert ApplyChange(JObject(ms), c) == Ok(JObject(ms + [("newKey2", JString(""))]));
    assert ms + [("newKey2", JString(""))] == [("a", JNumber(Decimal(1, 0))), ("newKey2", JString(""))];
    assert EditAt(JObject(ms), [], Assign("newKey2", JString(""))) ==
             Ok(JObject(ms + [("newKey2", JString(""))]));
  }
}
