/** Resolution of an index path in a tree of neural-network modules, as done by
    `get_module` in fast_impl/core.py.

    A root is either a built module, whose children are ordered as they were
    declared, or an architecture factory (a plain function or a
    `functools.partial`) that builds such a module when called with `False`
    (do not load pretrained weights). A path is either one integer or a list
    whose elements are themselves paths: the head of a list is resolved with
    the same function, so `[[0, 1], 2]` is as valid as `[0, 1, 2]`. */
module Core {

  /** A built module: its name under its parent, its class name and its
      children in declaration order. */
  datatype Module = Node(name: string, typeName: string, children: seq<Module>)

  /** What `get_module` accepts as its first argument. */
  datatype Root =
    | Built(built: Module)
    | Factory(make: bool -> Module)

  /** What `get_module` accepts as its second argument. */
  datatype Index =
    | Scalar(i: int)
    | Path(steps: seq<Index>)

  /** Why a resolution fails. */
  datatype Failure =
    | OutOfBounds(index: int)     // the assertion "IndexError: {i} is out of bounds"
    | ListIndexError              // Python's own list IndexError for i < -len, which does not name i
    | EmptyPath                   // `i[0]` on an empty list

  datatype Result =
    | Ok(value: Module)
    | Err(failure: Failure)

  /** The `_is_fn` dispatch: a factory is called with `False`, a module is used as is. */
  function Materialize(root: Root): Module {
    match root
    case Built(m) => m
    case Factory(make) => make(false)
  }

  /** Python accepts a list index i exactly when -n <= i < n. With `Position`
      and `IndexFailure` this is the reference that `Child` is checked against. */
  predicate InRange(i: int, n: nat) {
    0 <= n + i && i < n
  }

  /** The position Python's list indexing selects for an accepted index. */
  function Position(i: int, n: nat): (p: nat)
    requires InRange(i, n)
    ensures p < n
  {
    if i >= 0 then i else n + i
  }

  /** The failure for an integer that a node with n children rejects: the
      bounds assertion for i >= n, Python's list indexing below -n. */
  function IndexFailure(i: int, n: nat): Failure {
    if i >= n then OutOfBounds(i) else ListIndexError
  }

  /** The scalar case: the bounds assertion, then indexing into the children.
      It succeeds exactly on the indices Python's list accepts, with the child
      at the position Python selects, and otherwise fails as the code does. */
  function Child(o: Module, i: int): (r: Result)
    ensures r.Ok? <==> InRange(i, |o.children|)
    ensures r.Ok? ==> r.value == o.children[Position(i, |o.children|)]
    ensures r.Err? ==> r.failure == IndexFailure(i, |o.children|)
  {
    var n := |o.children|;
    if !(i < n) then Err(OutOfBounds(i))
    else if 0 <= i then Ok(o.children[i])
    else if 0 <= n + i then Ok(o.children[n + i])
    else Err(ListIndexError)
  }

  /** Continue a resolution that produced `r` with the path `idx`. */
  function Then(r: Result, idx: Index): Result {
    match r
    case Err(e) => Err(e)
    case Ok(m) => GetModule(Built(m), idx)
  }

  /** Number of constructors in an index: a termination measure. */
  function Size(idx: Index): (n: nat)
    ensures n >= 1
    decreases idx, 1
  {
    match idx
    case Scalar(_) => 1
    case Path(steps) => 1 + SizeAll(steps)
  }

  function SizeAll(steps: seq<Index>): nat
    decreases steps, 0
  {
    if steps == [] then 0 else Size(steps[0]) + SizeAll(steps[1..])
  }

  /** The integers of an index, read left to right. */
  function Flatten(idx: Index): seq<int>
    decreases Size(idx)
  {
    match idx
    case Scalar(i) => [i]
    case Path(steps) =>
      if steps == [] then []
      else
        assert SizeAll(steps) == Size(steps[0]) + SizeAll(steps[1..]);
        Flatten(steps[0]) + Flatten(Path(steps[1..]))
  }

  /** No list anywhere in the index is empty. */
  predicate WellFormed(idx: Index) {
    match idx
    case Scalar(_) => true
    case Path(steps) => |steps| > 0 && forall k :: 0 <= k < |steps| ==> WellFormed(steps[k])
  }

  /** `get_module(o, i)`: the head of a list is resolved first, then the tail
      against its result; a one-element list is its element; an integer is
      checked against the number of children and selects one of them.
      A successful resolution never met an empty list, and a failure of the
      bounds assertion names one of the integers of the path. */
  function GetModule(root: Root, idx: Index): (r: Result)
    ensures r.Ok? ==> WellFormed(idx)
    ensures r.Err? && r.failure.OutOfBounds? ==> r.failure.index in Flatten(idx)
    decreases Size(idx)
  {
    var o := Materialize(root);
    match idx
    case Scalar(i) => Child(o, i)
    case Path(steps) =>
      if |steps| == 0 then Err(EmptyPath)
      else
        assert SizeAll(steps) == Size(steps[0]) + SizeAll(steps[1..]);
        var m := GetModule(Built(o), steps[0]);
        if |steps| == 1 then m
        else
          var r := match m
            case Err(e) => Err(e)
            case Ok(c) => GetModule(Built(c), Path(steps[1..]));
          assert r.Ok? ==> forall k :: 0 <= k < |steps| ==> WellFormed(steps[k]) by {
            if r.Ok? {
              forall k | 0 <= k < |steps| ensures WellFormed(steps[k]) {
                if k > 0 {
                  assert steps[k] == steps[1..][k - 1];
                }
              }
            }
          }
          r
  }

  /** `m` is reached from `o` by descending exactly `k` levels. */
  ghost predicate Below(o: Module, m: Module, k: nat)
    decreases k
  {
    if k == 0 then m == o
    else exists j :: 0 <= j < |o.children| && Below(o.children[j], m, k - 1)
  }

  // ---------------------------------------------------------------------------
  // The scalar case

  /** An index within the children selects the child at that position. */
  lemma ScalarInRange(root: Root, i: int)
    requires 0 <= i < |Materialize(root).children|
    ensures GetModule(root, Scalar(i)) == Ok(Materialize(root).children[i])
  {
  }

  /** An index at or past the number of children fails the bounds assertion,
      which names that index. */
  lemma ScalarOutOfBounds(root: Root, i: int)
    requires i >= |Materialize(root).children|
    ensures GetModule(root, Scalar(i)) == Err(OutOfBounds(i))
  {
  }

  /** The assertion does not reject a negative index: -n <= i < 0 counts from
      the end, as Python's list indexing does. */
  lemma NegativeCountsFromEnd(root: Root, i: int)
    requires i < 0 <= |Materialize(root).children| + i
    ensures GetModule(root, Scalar(i)) == GetModule(root, Scalar(|Materialize(root).children| + i))
    ensures GetModule(root, Scalar(i)).Ok?
  {
  }

  /** Below -n the assertion passes and the list itself raises, with an
      error that does not name the index. */
  lemma NegativeOutOfRange(root: Root, i: int)
    requires |Materialize(root).children| + i < 0
    ensures GetModule(root, Scalar(i)) == Err(ListIndexError)
  {
  }

  // ---------------------------------------------------------------------------
  // Factories

  /** A factory resolves exactly as the module it builds when called with
      `False`; the recursive calls only ever receive built modules. */
  lemma FactoryAsBuilt(make: bool -> Module, idx: Index)
    ensures GetModule(Factory(make), idx) == GetModule(Built(make(false)), idx)
  {
  }

  // ---------------------------------------------------------------------------
  // Lists

  /** A one-element list resolves as its only element, success or failure. */
  lemma SingletonPath(root: Root, x: Index)
    ensures GetModule(root, Path([x])) == GetModule(root, x)
  {
  }

  /** A list of two or more elements resolves its head, then the rest against
      the head's result; a failure of the head is the failure of the whole. */
  lemma HeadThenTail(root: Root, x: Index, rest: seq<Index>)
    requires |rest| > 0
    ensures GetModule(root, Path([x] + rest)) == Then(GetModule(root, x), Path(rest))
  {
    assert ([x] + rest)[1..] == rest;
  }

  /** Splitting a list anywhere gives the same resolution: resolve the first
      part, then the second part against its result. */
  lemma {:induction false} PathAppend(o: Module, a: seq<Index>, b: seq<Index>)
    requires |a| > 0 && |b| > 0
    ensures GetModule(Built(o), Path(a + b)) == Then(GetModule(Built(o), Path(a)), Path(b))
    decreases |a|
  {
    assert (a + b)[0] == a[0];
    assert (a + b)[1..] == a[1..] + b;
    if |a| > 1 {
      match GetModule(Built(o), a[0])
      case Err(_) =>
      case Ok(c) => PathAppend(c, a[1..], b);
    }
  }

  // ---------------------------------------------------------------------------
  // A flat reference: descend one integer at a time

  /** Descend from `o` through the integers of `ks`, left to right. */
  function Walk(o: Module, ks: seq<int>): Result
    decreases |ks|
  {
    if ks == [] then Ok(o)
    else match Child(o, ks[0])
      case Err(e) => Err(e)
      case Ok(c) => Walk(c, ks[1..])
  }

  function WalkThen(r: Result, ks: seq<int>): Result {
    match r
    case Err(e) => Err(e)
    case Ok(m) => Walk(m, ks)
  }

  lemma {:induction false} WalkAppend(o: Module, a: seq<int>, b: seq<int>)
    ensures Walk(o, a + b) == WalkThen(Walk(o, a), b)
    decreases |a|
  {
    if a == [] {
      assert a + b == b;
    } else {
      assert (a + b)[0] == a[0];
      assert (a + b)[1..] == a[1..] + b;
      match Child(o, a[0])
      case Err(_) =>
      case Ok(c) => WalkAppend(c, a[1..], b);
    }
  }

  /** On an index without empty lists, `get_module` is the flat walk over the
      integers of the index: nesting of lists does not matter. */
  lemma {:induction false} FlattenAgrees(root: Root, idx: Index)
    requires WellFormed(idx)
    ensures GetModule(root, idx) == Walk(Materialize(root), Flatten(idx))
    decreases Size(idx)
  {
    var o := Materialize(root);
    match idx
    case Scalar(i) =>
    case Path(steps) =>
      assert SizeAll(steps) == Size(steps[0]) + SizeAll(steps[1..]);
      var a := Flatten(steps[0]);
      var b := Flatten(Path(steps[1..]));
      FlattenAgrees(Built(o), steps[0]);
      WalkAppend(o, a, b);
      if |steps| == 1 {
        assert b == [];
        assert a + b == a;
      } else {
        var tail := Path(steps[1..]);
        assert WellFormed(tail) by {
          forall k | 0 <= k < |steps[1..]| ensures WellFormed(steps[1..][k]) {
            assert steps[1..][k] == steps[k + 1];
          }
        }
        match Walk(o, a)
        case Err(_) =>
        case Ok(m) => FlattenAgrees(Built(m), tail);
      }
  }

  /** The integer at position j of `ks` is accepted by the node that the
      integers before it reach. */
  ghost predicate AcceptedAt(o: Module, ks: seq<int>, j: nat)
    requires j < |ks|
  {
    Walk(o, ks[..j]).Ok? && InRange(ks[j], |Walk(o, ks[..j]).value.children|)
  }

  /** Past the first integer, acceptance is acceptance below the first child. */
  lemma AcceptedAtShift(o: Module, c: Module, ks: seq<int>, j: nat)
    requires 1 <= j < |ks| && Child(o, ks[0]) == Ok(c)
    ensures Walk(o, ks[..j]) == Walk(c, ks[1..][..j - 1])
    ensures AcceptedAt(o, ks, j) == AcceptedAt(c, ks[1..], j - 1)
  {
    assert ks[..j][0] == ks[0];
    assert ks[..j][1..] == ks[1..][..j - 1];
  }

  /** A walk succeeds exactly when, at every depth, the index is accepted by
      the node reached so far. */
  lemma {:induction false} WalkSucceedsIff(o: Module, ks: seq<int>)
    ensures Walk(o, ks).Ok? <==> forall j :: 0 <= j < |ks| ==> AcceptedAt(o, ks, j)
    decreases |ks|
  {
    if ks != [] {
      assert ks[..0] == [];
      match Child(o, ks[0])
      case Err(_) =>
        assert !AcceptedAt(o, ks, 0);
      case Ok(c) =>
        WalkSucceedsIff(c, ks[1..]);
        if Walk(o, ks).Ok? {
          forall j | 0 <= j < |ks| ensures AcceptedAt(o, ks, j) {
            if j > 0 {
              AcceptedAtShift(o, c, ks, j);
            }
          }
        } else {
          var j :| 0 <= j < |ks[1..]| && !AcceptedAt(c, ks[1..], j);
          AcceptedAtShift(o, c, ks, j + 1);
        }
    }
  }

  /** When the first j integers resolve, each of them was accepted where it
      stood. */
  lemma PrefixAccepted(o: Module, ks: seq<int>, j: nat)
    requires j <= |ks| && Walk(o, ks[..j]).Ok?
    ensures forall j' :: 0 <= j' < j ==> AcceptedAt(o, ks, j')
  {
    WalkSucceedsIff(o, ks[..j]);
    forall j' | 0 <= j' < j ensures AcceptedAt(o, ks, j') {
      assert AcceptedAt(o, ks[..j], j');
      assert ks[..j][..j'] == ks[..j'];
      assert ks[..j][j'] == ks[j'];
    }
  }

  /** A failing walk fails at the first index that the node reached so far
      does not accept, with the failure the code raises for that index: the
      assertion's, which names it, or the list's own, which does not. */
  lemma {:induction false} WalkFailsAtFirstBad(o: Module, ks: seq<int>)
    requires Walk(o, ks).Err?
    ensures exists j :: (0 <= j < |ks| && !AcceptedAt(o, ks, j) && Walk(o, ks[..j]).Ok? &&
      (forall j' :: 0 <= j' < j ==> AcceptedAt(o, ks, j')) &&
      Walk(o, ks).failure == IndexFailure(ks[j], |Walk(o, ks[..j]).value.children|))
    decreases |ks|
  {
    assert ks[..0] == [];
    match Child(o, ks[0])
    case Err(_) =>
      assert Walk(o, ks[..0]) == Ok(o);
    case Ok(c) =>
      WalkFailsAtFirstBad(c, ks[1..]);
      var j :| 0 <= j < |ks[1..]| && !AcceptedAt(c, ks[1..], j) && Walk(c, ks[1..][..j]).Ok? &&
        Walk(c, ks[1..]).failure == IndexFailure(ks[1..][j], |Walk(c, ks[1..][..j]).value.children|);
      AcceptedAtShift(o, c, ks, j + 1);
      assert ks[j + 1] == ks[1..][j];
      PrefixAccepted(o, ks, j + 1);
      assert 0 <= j + 1 < |ks| && !AcceptedAt(o, ks, j + 1) && Walk(o, ks[..j + 1]).Ok? &&
        (forall j' :: 0 <= j' < j + 1 ==> AcceptedAt(o, ks, j')) &&
        Walk(o, ks).failure == IndexFailure(ks[j + 1], |Walk(o, ks[..j + 1]).value.children|);
  }

  /** A successful walk over k integers ends exactly k levels below its start. */
  lemma {:induction false} WalkDepth(o: Module, ks: seq<int>)
    requires Walk(o, ks).Ok?
    ensures Below(o, Walk(o, ks).value, |ks|)
    decreases |ks|
  {
    if ks != [] {
      var n := |o.children|;
      var p := Position(ks[0], n);
      assert Child(o, ks[0]) == Ok(o.children[p]);
      WalkDepth(o.children[p], ks[1..]);
    }
  }

  // ---------------------------------------------------------------------------
  // What the flat reference says about get_module

  /** A path without empty lists resolves exactly when every integer along
      it is accepted at its depth. */
  lemma GetModuleSucceedsIff(root: Root, idx: Index)
    requires WellFormed(idx)
    ensures GetModule(root, idx).Ok? <==>
      forall j :: 0 <= j < |Flatten(idx)| ==> AcceptedAt(Materialize(root), Flatten(idx), j)
  {
    FlattenAgrees(root, idx);
    WalkSucceedsIff(Materialize(root), Flatten(idx));
  }

  /** A successful resolution lies as many levels below the root as the path
      has integers. */
  lemma GetModuleDepth(root: Root, idx: Index)
    requires GetModule(root, idx).Ok?
    ensures Below(Materialize(root), GetModule(root, idx).value, |Flatten(idx)|)
  {
    FlattenAgrees(root, idx);
    WalkDepth(Materialize(root), Flatten(idx));
  }

  /** A failing path fails at the first integer, scanning left to right, that
      the node reached so far does not accept. */
  lemma GetModuleFailsAtFirstBad(root: Root, idx: Index)
    requires WellFormed(idx)
    requires GetModule(root, idx).Err?
    ensures var ks := Flatten(idx); var o := Materialize(root);
      exists j :: (0 <= j < |ks| && !AcceptedAt(o, ks, j) && Walk(o, ks[..j]).Ok? &&
        (forall j' :: 0 <= j' < j ==> AcceptedAt(o, ks, j')) &&
        GetModule(root, idx).failure == IndexFailure(ks[j], |Walk(o, ks[..j]).value.children|))
  {
    FlattenAgrees(root, idx);
    WalkFailsAtFirstBad(Materialize(root), Flatten(idx));
  }

  // ---------------------------------------------------------------------------
  // A worked example: children [A, B, D], where D has children [X, Y]

  function SampleTree(): Module {
    Node("", "Sequential", [
      Node("0", "Conv2d", []),
      Node("1", "ReLU", []),
      Node("2", "Sequential", [Node("0", "Linear", []), Node("1", "Softmax", [])])])
  }

  lemma SampleResolutions()
    ensures GetModule(Built(SampleTree()), Scalar(2)) == Ok(SampleTree().children[2])
    ensures GetModule(Built(SampleTree()), Path([Scalar(2), Scalar(1)])) == Ok(Node("1", "Softmax", []))
    ensures GetModule(Built(SampleTree()), Path([Path([Scalar(2)]), Scalar(1)])) == Ok(Node("1", "Softmax", []))
    ensures GetModule(Built(SampleTree()), Scalar(3)) == Err(OutOfBounds(3))
    ensures GetModule(Built(SampleTree()), Path([Scalar(2), Scalar(5)])) == Err(OutOfBounds(5))
    ensures GetModule(Built(SampleTree()), Scalar(-1)) == Ok(SampleTree().children[2])
    ensures GetModule(Built(SampleTree()), Scalar(-4)) == Err(ListIndexError)
    ensures GetModule(Built(SampleTree()), Path([])) == Err(EmptyPath)
  {
  }
}
