/** The Angular reactive-forms tree that the form component navigates:
    leaf controls, named groups and indexed arrays, with the handful of
    Angular operations the component relies on (`get`, `controls[...]`,
    `reset`, `markAllAsTouched`). */
module Controls {
  import opened Wrappers

  /** The interaction and validity flags of one leaf `FormControl`.
      `valid` is the outcome of the control's validators on its current
      value; `resetValid` is their outcome on the value `reset()` restores,
      which is fixed for a given control. */
  datatype Leaf = Leaf(touched: bool, dirty: bool, valid: bool, resetValid: bool)

  datatype Control =
    | FormControl(leaf: Leaf)
    | FormGroup(members: map<string, Control>)
    | FormArray(items: seq<Control>)

  // ---------------------------------------------------------------------
  // Aggregate flags. Angular keeps `touched`, `dirty` and the validation
  // status of a group or array as the aggregate of its children.
  // ---------------------------------------------------------------------

  predicate Touched(c: Control)
  {
    match c
    case FormControl(l) => l.touched
    case FormGroup(m) => exists k :: k in m && Touched(m[k])
    case FormArray(s) => exists i :: 0 <= i < |s| && Touched(s[i])
  }

  predicate Dirty(c: Control)
  {
    match c
    case FormControl(l) => l.dirty
    case FormGroup(m) => exists k :: k in m && Dirty(m[k])
    case FormArray(s) => exists i :: 0 <= i < |s| && Dirty(s[i])
  }

  /** Angular's `invalid`: the status is INVALID when the leaf fails its
      validators, or when some child of a group or array is INVALID. */
  predicate Invalid(c: Control)
  {
    match c
    case FormControl(l) => !l.valid
    case FormGroup(m) => exists k :: k in m && Invalid(m[k])
    case FormArray(s) => exists i :: 0 <= i < |s| && Invalid(s[i])
  }

  /** Every leaf below `c` is touched. */
  predicate AllTouched(c: Control)
  {
    match c
    case FormControl(l) => l.touched
    case FormGroup(m) => forall k :: k in m ==> AllTouched(m[k])
    case FormArray(s) => forall i :: 0 <= i < |s| ==> AllTouched(s[i])
  }

  /** `a` and `b` have the same structure: the same kinds of node, the same
      group names and the same array lengths, all the way down. */
  predicate SameShape(a: Control, b: Control)
  {
    match a
    case FormControl(_) => b.FormControl?
    case FormGroup(m) =>
      && b.FormGroup?
      && b.members.Keys == m.Keys
      && forall k :: k in m ==> SameShape(m[k], b.members[k])
    case FormArray(s) =>
      && b.FormArray?
      && |b.items| == |s|
      && forall i :: 0 <= i < |s| ==> SameShape(s[i], b.items[i])
  }

  // ---------------------------------------------------------------------
  // Whole-tree operations
  // ---------------------------------------------------------------------

  /** Applies `f` to every leaf, keeping the structure. */
  function MapLeaves(c: Control, f: Leaf -> Leaf): (r: Control)
    ensures SameShape(c, r)
  {
    match c
    case FormControl(l) => FormControl(f(l))
    case FormGroup(m) => FormGroup(map k | k in m :: MapLeaves(m[k], f))
    case FormArray(s) => FormArray(seq(|s|, i requires 0 <= i < |s| => MapLeaves(s[i], f)))
  }

  /** A leaf after `reset()`: pristine, untouched, and validated anew on
      its reset value. */
  function ResetLeaf(l: Leaf): Leaf
  {
    Leaf(false, false, l.resetValid, l.resetValid)
  }

  function TouchLeaf(l: Leaf): Leaf
  {
    l.(touched := true)
  }

  /** Angular's `reset()`: every control below `c` is reset; at every path
      that reaches a leaf, the leaf becomes untouched and pristine and takes
      the validity of its reset value. */
  function Reset(c: Control): (r: Control)
    ensures SameShape(c, r)
    ensures !Touched(r) && !Dirty(r)
    ensures SamePaths(c, r)
    ensures LeavesBecome(c, r, ResetLeaf)
  {
    NoneTouchedAfter(c, ResetLeaf);
    NoneDirtyAfter(c, ResetLeaf);
    LeavesAtPaths(c, ResetLeaf);
    MapLeaves(c, ResetLeaf)
  }

  /** Angular's `markAllAsTouched()`: every control below `c` is touched;
      at every path that reaches a leaf, only its `touched` flag changes,
      so dirtiness and validity stay as they were, control by control. */
  function MarkAllAsTouched(c: Control): (r: Control)
    ensures SameShape(c, r)
    ensures AllTouched(r)
    ensures Dirty(r) == Dirty(c)
    ensures Invalid(r) == Invalid(c)
    ensures SamePaths(c, r)
    ensures LeavesBecome(c, r, TouchLeaf)
  {
    AllTouchedAfter(c, TouchLeaf);
    LeavesAtPaths(c, TouchLeaf);
    MapLeavesKeepsDirty(c, TouchLeaf);
    MapLeavesKeepsInvalid(c, TouchLeaf);
    MapLeaves(c, TouchLeaf)
  }

  /** Angular's `markAsTouched` / `markAsUntouched` and `markAsDirty` /
      `markAsPristine` on a leaf control, setting both flags at once; other
      nodes are left as they are. */
  function SetInteraction(touched: bool, dirty: bool): Control -> Control
  {
    (n: Control) => if n.FormControl? then FormControl(n.leaf.(touched := touched, dirty := dirty)) else n
  }

  /** A user's interaction with a leaf control that may also change its
      value: typing into it re-runs its validators, so its validity becomes
      `valid`; visiting it and the `markAs...` calls set the two flags.
      Other nodes are left as they are. */
  function EditControl(touched: bool, dirty: bool, valid: bool): Control -> Control
  {
    (n: Control) =>
      if n.FormControl? then FormControl(n.leaf.(touched := touched, dirty := dirty, valid := valid)) else n
  }

  // ---------------------------------------------------------------------
  // Navigation
  // ---------------------------------------------------------------------

  /** One navigation step: a member of a group by name, or an element of
      an array by index. */
  datatype Step = Key(name: string) | At(index: int)

  /** The child reached by one step; None where JavaScript yields
      `undefined` (missing name, index out of range) or where the node is
      not of the kind the step needs. */
  function Child(c: Control, s: Step): (r: Option<Control>)
    ensures r.Some? ==> r.value < c
  {
    match s
    case Key(k) => if c.FormGroup? && k in c.members then Some(c.members[k]) else None
    case At(i) => if c.FormArray? && 0 <= i < |c.items| then Some(c.items[i]) else None
  }

  /** The node at `path` below `c`, if every step resolves. */
  function Resolve(c: Control, path: seq<Step>): Option<Control>
    decreases |path|
  {
    if path == [] then Some(c)
    else match Child(c, path[0])
      case None => None
      case Some(d) => Resolve(d, path[1..])
  }

  /** Exactly the same paths resolve in `a` and in `b`. */
  ghost predicate SamePaths(a: Control, b: Control)
  {
    forall p :: Resolve(a, p).Some? <==> Resolve(b, p).Some?
  }

  /** Every path that reaches a leaf `l` in `a` reaches the leaf `f(l)` in `b`. */
  ghost predicate LeavesBecome(a: Control, b: Control, f: Leaf -> Leaf)
  {
    forall p :: Resolve(a, p).Some? && Resolve(a, p).value.FormControl? ==>
      Resolve(b, p) == Some(FormControl(f(Resolve(a, p).value.leaf)))
  }

  /** Angular's `get(name)` on a group, with a single name (no dotted
      paths): the member, or `null` when there is none. */
  function Get(c: Control, name: string): (r: Option<Control>)
    ensures r == Resolve(c, [Key(name)])
  {
    Child(c, Key(name))
  }

  /** Replaces the node at `path` by `f` of it; a path that does not
      resolve leaves the tree as it is. */
  function UpdateAt(c: Control, path: seq<Step>, f: Control -> Control): (r: Control)
    ensures Resolve(c, path).None? ==> r == c
    decreases |path|
  {
    if path == [] then f(c)
    else match path[0]
      case Key(k) =>
        if c.FormGroup? && k in c.members
        then FormGroup(c.members[k := UpdateAt(c.members[k], path[1..], f)])
        else c
      case At(i) =>
        if c.FormArray? && 0 <= i < |c.items|
        then FormArray(c.items[i := UpdateAt(c.items[i], path[1..], f)])
        else c
  }

  // ---------------------------------------------------------------------
  // Lemmas about MapLeaves
  // ---------------------------------------------------------------------

  lemma {:induction false} NoneTouchedAfter(c: Control, f: Leaf -> Leaf)
    requires forall l :: !f(l).touched
    ensures !Touched(MapLeaves(c, f))
  {
    match c
    case FormControl(l) =>
    case FormGroup(m) =>
      forall k | k in m ensures !Touched(MapLeaves(m[k], f)) {
        NoneTouchedAfter(m[k], f);
      }
    case FormArray(s) =>
      forall i | 0 <= i < |s| ensures !Touched(MapLeaves(s[i], f)) {
        NoneTouchedAfter(s[i], f);
      }
  }

  lemma {:induction false} NoneDirtyAfter(c: Control, f: Leaf -> Leaf)
    requires forall l :: !f(l).dirty
    ensures !Dirty(MapLeaves(c, f))
  {
    match c
    case FormControl(l) =>
    case FormGroup(m) =>
      forall k | k in m ensures !Dirty(MapLeaves(m[k], f)) {
        NoneDirtyAfter(m[k], f);
      }
    case FormArray(s) =>
      forall i | 0 <= i < |s| ensures !Dirty(MapLeaves(s[i], f)) {
        NoneDirtyAfter(s[i], f);
      }
  }

  lemma {:induction false} AllTouchedAfter(c: Control, f: Leaf -> Leaf)
    requires forall l :: f(l).touched
    ensures AllTouched(MapLeaves(c, f))
  {
    match c
    case FormControl(l) =>
    case FormGroup(m) =>
      forall k | k in m ensures AllTouched(MapLeaves(m[k], f)) {
        AllTouchedAfter(m[k], f);
      }
    case FormArray(s) =>
      forall i | 0 <= i < |s| ensures AllTouched(MapLeaves(s[i], f)) {
        AllTouchedAfter(s[i], f);
      }
  }

  lemma {:induction false} MapLeavesKeepsDirty(c: Control, f: Leaf -> Leaf)
    requires forall l :: f(l).dirty == l.dirty
    ensures Dirty(MapLeaves(c, f)) == Dirty(c)
  {
    match c
    case FormControl(l) =>
    case FormGroup(m) =>
      forall k | k in m ensures Dirty(MapLeaves(m[k], f)) == Dirty(m[k]) {
        MapLeavesKeepsDirty(m[k], f);
      }
    case FormArray(s) =>
      forall i | 0 <= i < |s| ensures Dirty(MapLeaves(s[i], f)) == Dirty(s[i]) {
        MapLeavesKeepsDirty(s[i], f);
      }
  }

  lemma {:induction false} MapLeavesKeepsInvalid(c: Control, f: Leaf -> Leaf)
    requires forall l :: f(l).valid == l.valid
    ensures Invalid(MapLeaves(c, f)) == Invalid(c)
  {
    match c
    case FormControl(l) =>
    case FormGroup(m) =>
      forall k | k in m ensures Invalid(MapLeaves(m[k], f)) == Invalid(m[k]) {
        MapLeavesKeepsInvalid(m[k], f);
      }
    case FormArray(s) =>
      forall i | 0 <= i < |s| ensures Invalid(MapLeaves(s[i], f)) == Invalid(s[i]) {
        MapLeavesKeepsInvalid(s[i], f);
      }
  }

  /** Mapping `f` and then `g` over the leaves is mapping their composite. */
  lemma {:induction false} MapLeavesCompose(c: Control, f: Leaf -> Leaf, g: Leaf -> Leaf, h: Leaf -> Leaf)
    requires forall l :: g(f(l)) == h(l)
    ensures MapLeaves(MapLeaves(c, f), g) == MapLeaves(c, h)
  {
    match c
    case FormControl(l) =>
    case FormGroup(m) =>
      forall k | k in m ensures MapLeaves(MapLeaves(m[k], f), g) == MapLeaves(m[k], h) {
        MapLeavesCompose(m[k], f, g, h);
      }
    case FormArray(s) =>
      forall i | 0 <= i < |s| ensures MapLeaves(MapLeaves(s[i], f), g) == MapLeaves(s[i], h) {
        MapLeavesCompose(s[i], f, g, h);
      }
  }

  /** Navigating a mapped tree reaches the mapped node, and a path resolves
      in the mapped tree exactly when it resolves in the original. */
  lemma {:induction false} ResolveMapLeaves(c: Control, path: seq<Step>, f: Leaf -> Leaf)
    ensures Resolve(c, path).None? ==> Resolve(MapLeaves(c, f), path).None?
    ensures Resolve(c, path).Some? ==>
      Resolve(MapLeaves(c, f), path) == Some(MapLeaves(Resolve(c, path).value, f))
    decreases |path|
  {
    if path != [] {
      var r := MapLeaves(c, f);
      match Child(c, path[0])
      case None =>
        assert Child(r, path[0]).None?;
      case Some(d) =>
        assert Child(r, path[0]) == Some(MapLeaves(d, f));
        ResolveMapLeaves(d, path[1..], f);
    }
  }

  /** `ResolveMapLeaves` for all paths at once, seen from the leaves. */
  lemma {:induction false} LeavesAtPaths(c: Control, f: Leaf -> Leaf)
    ensures SamePaths(c, MapLeaves(c, f))
    ensures LeavesBecome(c, MapLeaves(c, f), f)
  {
    forall p
      ensures Resolve(c, p).Some? <==> Resolve(MapLeaves(c, f), p).Some?
      ensures Resolve(c, p).Some? && Resolve(c, p).value.FormControl? ==>
        Resolve(MapLeaves(c, f), p) == Some(FormControl(f(Resolve(c, p).value.leaf)))
    {
      ResolveMapLeaves(c, p, f);
    }
  }

  // ---------------------------------------------------------------------
  // Lemmas about the whole-tree operations
  // ---------------------------------------------------------------------

  /** Resetting twice is resetting once. */
  lemma ResetIdempotent(c: Control)
    ensures Reset(Reset(c)) == Reset(c)
  {
    MapLeavesCompose(c, ResetLeaf, ResetLeaf, ResetLeaf);
  }

  /** Marking every control touched before a reset makes no difference to
      the reset tree. */
  lemma ResetAfterMarkAllAsTouched(c: Control)
    ensures Reset(MarkAllAsTouched(c)) == Reset(c)
  {
    MapLeavesCompose(c, TouchLeaf, ResetLeaf, ResetLeaf);
  }

  /** Once every leaf is touched, an invalid node is itself touched. */
  lemma {:induction false} InvalidAllTouchedIsTouched(c: Control)
    requires AllTouched(c) && Invalid(c)
    ensures Touched(c)
  {
    match c
    case FormControl(l) =>
    case FormGroup(m) =>
      var k :| k in m && Invalid(m[k]);
      InvalidAllTouchedIsTouched(m[k]);
    case FormArray(s) =>
      var i :| 0 <= i < |s| && Invalid(s[i]);
      InvalidAllTouchedIsTouched(s[i]);
  }

  /** Updating the node at a path and then navigating that path reaches the
      updated node. */
  lemma {:induction false} ResolveUpdateAt(c: Control, path: seq<Step>, f: Control -> Control)
    requires Resolve(c, path).Some?
    ensures Resolve(UpdateAt(c, path, f), path) == Some(f(Resolve(c, path).value))
    decreases |path|
  {
    if path != [] {
      var d := Child(c, path[0]).value;
      var r := UpdateAt(c, path, f);
      assert Child(r, path[0]) == Some(UpdateAt(d, path[1..], f));
      ResolveUpdateAt(d, path[1..], f);
    }
  }

  /** A reset forgets every interaction before it: touching, editing
      (and so revalidating) or marking any one control does not change the
      reset tree. */
  lemma {:induction false} ResetIgnoresInteraction(c: Control, path: seq<Step>, touched: bool, dirty: bool, valid: bool)
    ensures Reset(UpdateAt(c, path, EditControl(touched, dirty, valid))) == Reset(c)
    decreases |path|
  {
    var f := EditControl(touched, dirty, valid);
    if path == [] {
      assert UpdateAt(c, path, f) == f(c);
    } else {
      match path[0]
      case Key(k) =>
        if c.FormGroup? && k in c.members {
          var m := c.members;
          var m' := m[k := UpdateAt(m[k], path[1..], f)];
          ResetIgnoresInteraction(m[k], path[1..], touched, dirty, valid);
          assert Reset(m'[k]) == Reset(m[k]);
          assert MapLeaves(FormGroup(m'), ResetLeaf).members == MapLeaves(FormGroup(m), ResetLeaf).members;
        }
      case At(i) =>
        if c.FormArray? && 0 <= i < |c.items| {
          var s := c.items;
          var s' := s[i := UpdateAt(s[i], path[1..], f)];
          ResetIgnoresInteraction(s[i], path[1..], touched, dirty, valid);
          assert Reset(s'[i]) == Reset(s[i]);
          assert MapLeaves(FormArray(s'), ResetLeaf).items == MapLeaves(FormArray(s), ResetLeaf).items;
        }
    }
  }
}
