/**
  A persistent, immutable, singly-linked list node (`List<T>` of src/list.hpp).

  Every node holds a value, an optional reference to the rest of the chain and a
  size cached at construction. No empty list exists: every chain has at least one
  node. Nothing is ever updated in place; `Insert` builds fresh nodes for the
  prefix it changes and reuses the untouched suffix.
*/
module PersistentList {
  import opened Wrappers

  /** One node of a chain. `next == None` is the null tail pointer. */
  datatype List<T> = Node(value: T, next: Option<List<T>>, size: nat)

  /** The exception `insert` throws for a position beyond the end. */
  datatype Error = InvalidArgument(message: string)

  const PositionTooLarge := "Position should not be greater than list size"

  // ---------------------------------------------------------------------------
  // Abstraction and validity
  // ---------------------------------------------------------------------------

  /** The values of the chain starting at `l`, front to back. */
  function Elems<T>(l: List<T>): seq<T>
    decreases l
  {
    [l.value] + match l.next
                case None => []
                case Some(n) => Elems(n)
  }

  /** The values of the chain a possibly null pointer refers to. */
  function PtrElems<T>(p: Option<List<T>>): seq<T>
  {
    match p
    case None => []
    case Some(l) => Elems(l)
  }

  /** The cached size of the chain a pointer refers to; a null pointer counts as 0. */
  function PtrSize<T>(p: Option<List<T>>): nat
  {
    match p
    case None => 0
    case Some(l) => l.size
  }

  /** Every node of the chain caches `1 + size of its tail`, as the constructor computes it. */
  predicate Valid<T>(l: List<T>)
    decreases l
  {
    l.size == PtrSize(l.next) + 1 &&
    match l.next
    case None => true
    case Some(n) => Valid(n)
  }

  predicate ValidPtr<T>(p: Option<List<T>>)
  {
    match p
    case None => true
    case Some(l) => Valid(l)
  }

  /** The pointer reached by following `next` k times from `p` (null once past the end). */
  function Follow<T>(p: Option<List<T>>, k: nat): Option<List<T>>
    decreases k
  {
    match p
    case None => None
    case Some(l) => if k == 0 then p else Follow(l.next, k - 1)
  }

  /** The cached size of a valid chain is its number of elements, so it is at least 1. */
  lemma {:induction false} SizeIsLength<T>(l: List<T>)
    requires Valid(l)
    ensures l.size == |Elems(l)| && l.size >= 1
    decreases l
  {
    match l.next
    case None =>
    case Some(n) => SizeIsLength(n);
  }

  lemma PtrSizeIsLength<T>(p: Option<List<T>>)
    requires ValidPtr(p)
    ensures PtrSize(p) == |PtrElems(p)|
  {
    if p.Some? { SizeIsLength(p.value); }
  }

  /** In a valid chain the tail pointer is null exactly when the cached size is 1. */
  lemma {:induction false} LastNodeIffSizeOne<T>(l: List<T>)
    requires Valid(l)
    ensures l.next.None? <==> l.size == 1
  {
    if l.next.Some? { SizeIsLength(l.next.value); }
  }

  /** Following k pointers from a valid chain of n elements lands on the chain of its last n-k elements. */
  lemma {:induction false} FollowElems<T>(p: Option<List<T>>, k: nat)
    requires ValidPtr(p) && k <= PtrSize(p)
    ensures ValidPtr(Follow(p, k))
    ensures PtrSize(p) == |PtrElems(p)|
    ensures PtrElems(Follow(p, k)) == PtrElems(p)[k..]
    decreases k
  {
    PtrSizeIsLength(p);
    if k > 0 {
      FollowElems(p.value.next, k - 1);
    }
  }

  // ---------------------------------------------------------------------------
  // Construction
  // ---------------------------------------------------------------------------

  /** `List(value, next)`: a fresh node in front of `next`, caching `next->size + 1`, or 1 for null. */
  function Cons<T>(value: T, next: Option<List<T>> := None): (r: List<T>)
    requires ValidPtr(next)
    ensures Valid(r)
    ensures Elems(r) == [value] + PtrElems(next)
    ensures r.size == |Elems(r)| && r.size >= 1
    ensures r.value == value && r.next == next
  {
    PtrSizeIsLength(next);
    Node(value, next, if next.Some? then next.value.size + 1 else 1)
  }

  // ---------------------------------------------------------------------------
  // Positional insert
  // ---------------------------------------------------------------------------

  /** `insertFirst`: the new value in front of the receiver, which becomes the whole tail. */
  function InsertFirst<T>(l: List<T>, value: T): (r: List<T>)
    requires Valid(l)
    ensures Valid(r)
    ensures Elems(r) == [value] + Elems(l)
    ensures r.size == l.size + 1
  {
    SizeIsLength(l);
    Cons(value, Some(l))
  }

  /** `insertSecond`: on the last node, a copy of it followed by a new node holding `value`. */
  function InsertSecond<T>(l: List<T>, value: T): (r: List<T>)
    requires Valid(l) && l.size == 1
    ensures Valid(r)
    ensures Elems(r) == Elems(l) + [value]
    ensures r.size == 2
  {
    LastNodeIffSizeOne(l);
    Cons(l.value, Some(Cons(value, l.next)))
  }

  /** Splicing behind the head of `[x] + s` is splicing into `s` one position earlier. */
  lemma SpliceBehindHead<T>(x: T, s: seq<T>, v: T, position: nat)
    requires 1 <= position <= |s| + 1
    ensures ([x] + s)[..position] + [v] + ([x] + s)[position..]
         == [x] + (s[..position - 1] + [v] + s[position - 1..])
  {
    assert ([x] + s)[..position] == [x] + s[..position - 1];
    assert ([x] + s)[position..] == s[position - 1..];
  }

  /**
    `_insert`: copies the first `position` nodes and reuses the rest. The recursive
    branch is reached only on a node with a successor, and each recursive call keeps
    `position - 1 <= next->size`; `position` decreases.
  */
  function InsertAt<T>(l: List<T>, value: T, position: nat): (r: List<T>)
    requires Valid(l) && position <= l.size
    ensures Valid(r)
    ensures r.size == l.size + 1
    ensures |Elems(l)| == l.size
    ensures Elems(r) == Elems(l)[..position] + [value] + Elems(l)[position..]
    decreases position
  {
    SizeIsLength(l);
    if position == 0 then
      assert Elems(l)[..0] == [] && Elems(l)[0..] == Elems(l);
      InsertFirst(l, value)
    else if l.size == 1 && position == 1 then
      assert Elems(l)[..1] == Elems(l) && Elems(l)[1..] == [];
      InsertSecond(l, value)
    else
      LastNodeIffSizeOne(l);
      var rest := InsertAt(l.next.value, value, position - 1);
      SpliceBehindHead(l.value, Elems(l.next.value), value, position);
      Cons(l.value, Some(rest))
  }

  /** `insert`: fails with `invalid_argument` when `position > size`, otherwise splices `value` in. */
  function Insert<T>(l: List<T>, value: T, position: nat := 0): (r: Result<List<T>, Error>)
    requires Valid(l)
    ensures r.Failure? <==> position > l.size
    ensures r.Failure? ==> r.error == InvalidArgument(PositionTooLarge)
    ensures r.Success? ==>
              && Valid(r.value)
              && r.value.size == l.size + 1
              && |Elems(l)| == l.size
              && Elems(r.value) == Elems(l)[..position] + [value] + Elems(l)[position..]
  {
    if position > l.size then
      Failure(InvalidArgument(PositionTooLarge))
    else
      Success(InsertAt(l, value, position))
  }

  /** Insert at position 0 puts the value in a new head node whose tail is the receiver itself. */
  lemma InsertFrontSharesReceiver<T>(l: List<T>, value: T)
    requires Valid(l)
    ensures Insert(l, value) == Success(Node(value, Some(l), l.size + 1))
    ensures Elems(Insert(l, value).value) == [value] + Elems(l)
  {
    SizeIsLength(l);
    assert InsertAt(l, value, 0) == InsertFirst(l, value) == Cons(value, Some(l));
  }

  /** Insert at position `size` appends: the elements are the receiver's followed by the new value. */
  lemma InsertAtEndAppends<T>(l: List<T>, value: T)
    requires Valid(l)
    ensures Insert(l, value, l.size).Success?
    ensures Elems(Insert(l, value, l.size).value) == Elems(l) + [value]
    ensures var s := Elems(Insert(l, value, l.size).value); s[|s| - 1] == value
  {
    SizeIsLength(l);
    assert Elems(l)[..l.size] == Elems(l);
  }

  /**
    The append path walks down to the last node: following `size - 1` pointers from the
    receiver reaches a valid node with size 1 and a null tail, and at that depth the result
    of inserting at position `size` is what `insertSecond` builds on that last node.
  */
  lemma {:induction false} AppendReachesLastNode<T>(l: List<T>, value: T)
    requires Valid(l)
    ensures ValidPtr(Follow(Some(l), l.size - 1))
    ensures Follow(Some(l), l.size - 1).Some?
    ensures Follow(Some(l), l.size - 1).value.size == 1
    ensures Follow(Some(l), l.size - 1).value.next.None?
    ensures Follow(Some(InsertAt(l, value, l.size)), l.size - 1)
         == Some(InsertSecond(Follow(Some(l), l.size - 1).value, value))
    decreases l
  {
    LastNodeIffSizeOne(l);
    if l.size > 1 {
      var n := l.next.value;
      SizeIsLength(n);
      assert InsertAt(l, value, l.size) == Cons(l.value, Some(InsertAt(n, value, n.size)));
      AppendReachesLastNode(n, value);
    } else {
      assert InsertAt(l, value, l.size) == InsertSecond(l, value);
    }
  }

  /**
    Structural sharing: in the result, the node at depth `position` holds the new value and
    its tail is the receiver's own sub-chain at depth `position` (null when appending).
  */
  lemma {:induction false} InsertSharesSuffix<T>(l: List<T>, value: T, position: nat)
    requires Valid(l) && position <= l.size
    ensures Follow(Some(InsertAt(l, value, position)), position).Some?
    ensures Follow(Some(InsertAt(l, value, position)), position).value.value == value
    ensures Follow(Some(InsertAt(l, value, position)), position + 1) == Follow(Some(l), position)
    decreases position
  {
    LastNodeIffSizeOne(l);
    if position == 0 {
      assert InsertAt(l, value, position) == Cons(value, Some(l));
    } else if l.size == 1 && position == 1 {
      assert InsertAt(l, value, position) == Cons(l.value, Some(Cons(value, l.next)));
    } else {
      var rest := InsertAt(l.next.value, value, position - 1);
      assert InsertAt(l, value, position) == Cons(l.value, Some(rest));
      InsertSharesSuffix(l.next.value, value, position - 1);
    }
  }

  /** For an inner position the shared suffix is a real node of the receiver, holding its element at `position`. */
  lemma SharedSuffixIsReceiverNode<T>(l: List<T>, value: T, position: nat)
    requires Valid(l) && position < l.size
    ensures Follow(Some(l), position).Some?
    ensures Follow(Some(InsertAt(l, value, position)), position + 1) == Follow(Some(l), position)
    ensures PtrElems(Follow(Some(l), position)) == Elems(l)[position..]
  {
    InsertSharesSuffix(l, value, position);
    FollowElems(Some(l), position);
  }

  /** On a one-element chain `[x]`, `insert(v, 1)` gives `[x, v]` (so `[1].insert(2, 1) == [1, 2]`). */
  lemma AppendToSingletonExample<T>(x: T, v: T)
    ensures Insert(Cons(x), v, 1).Success?
    ensures Elems(Insert(Cons(x), v, 1).value) == [x, v]
  {
    InsertAtEndAppends(Cons(x), v);
  }

  /**
    On a one-element chain `[x]`, `insert(v, 0)` gives `[v, x]` (so `[1].insert(2, 0) == [2, 1]`),
    and position 2 is rejected.
  */
  lemma PrependToSingletonExample<T>(x: T, v: T)
    ensures Insert(Cons(x), v, 0).Success?
    ensures Elems(Insert(Cons(x), v, 0).value) == [v, x]
    ensures Insert(Cons(x), v, 2) == Failure(InvalidArgument(PositionTooLarge))
  {
  }

  // ---------------------------------------------------------------------------
  // Structural equality
  // ---------------------------------------------------------------------------

  /**
    A pointer-identity test. The C++ comparison `this->next != list.next` compares
    addresses; the model takes the identity test as a parameter `same` and only
    assumes of it that identical nodes are equal values.
  */
  ghost predicate SoundIdentity<T(!new)>(same: (List<T>, List<T>) -> bool)
  {
    forall x, y :: same(x, y) ==> x == y
  }

  /** Pointer equality of two tail pointers: both null, or both refer to the same node. */
  predicate SamePtr<T>(p: Option<List<T>>, q: Option<List<T>>, same: (List<T>, List<T>) -> bool)
  {
    match (p, q)
    case (None, None) => true
    case (Some(x), Some(y)) => same(x, y)
    case _ => false
  }

  /** Two non-empty sequences are equal exactly when their heads and their rests are. */
  lemma ConsEquality<T>(x: T, s: seq<T>, y: T, t: seq<T>)
    ensures [x] + s == [y] + t <==> x == y && s == t
  {
    if [x] + s == [y] + t {
      assert x == ([x] + s)[0] == ([y] + t)[0] == y;
      assert s == ([x] + s)[1..] == ([y] + t)[1..] == t;
    }
  }

  /**
    `operator!=`: the chains differ when exactly one tail is null, when the heads differ,
    or when the tails are different nodes that compare unequal.
  */
  function NotEqual<T(==,!new)>(a: List<T>, b: List<T>, same: (List<T>, List<T>) -> bool): (r: bool)
    requires SoundIdentity(same)
    ensures r <==> Elems(a) != Elems(b)
    decreases a
  {
    var r :=
      || (a.next.None? != b.next.None?)
      || a.value != b.value
      || (!SamePtr(a.next, b.next, same) && NotEqual(a.next.value, b.next.value, same));
    ConsEquality(a.value, PtrElems(a.next), b.value, PtrElems(b.next));
    assert a.next.Some? ==> |PtrElems(a.next)| >= 1;
    assert b.next.Some? ==> |PtrElems(b.next)| >= 1;
    assert SamePtr(a.next, b.next, same) ==> a.next == b.next;
    r
  }

  /** `operator==`: the negation of `operator!=`. */
  function Equal<T(==,!new)>(a: List<T>, b: List<T>, same: (List<T>, List<T>) -> bool): (r: bool)
    requires SoundIdentity(same)
    ensures r <==> Elems(a) == Elems(b)
    ensures r == !NotEqual(a, b, same)
  {
    !NotEqual(a, b, same)
  }

  /** Two valid chains are equal exactly when they have the same size and the same values in order. */
  lemma EqualIffSameSizeAndValues<T(!new)>(a: List<T>, b: List<T>, same: (List<T>, List<T>) -> bool)
    requires SoundIdentity(same) && Valid(a) && Valid(b)
    ensures |Elems(a)| == a.size && |Elems(b)| == b.size
    ensures Equal(a, b, same) <==>
              && a.size == b.size
              && forall i :: 0 <= i < a.size ==> Elems(a)[i] == Elems(b)[i]
  {
    SizeIsLength(a);
    SizeIsLength(b);
  }

  /** Chains of different cached sizes are never equal. */
  lemma DifferentSizesUnequal<T(!new)>(a: List<T>, b: List<T>, same: (List<T>, List<T>) -> bool)
    requires SoundIdentity(same) && Valid(a) && Valid(b) && a.size != b.size
    ensures NotEqual(a, b, same) && !Equal(a, b, same)
  {
    SizeIsLength(a);
    SizeIsLength(b);
  }

  /**
    The identical-tail case: when both tails are the same node only the head values decide.
    The skip of the deeper comparison itself is the short-circuit in `NotEqual`'s body.
  */
  lemma SharedTailSkipsComparison<T(!new)>(a: List<T>, b: List<T>, same: (List<T>, List<T>) -> bool)
    requires SoundIdentity(same)
    requires a.next.Some? && b.next.Some? && same(a.next.value, b.next.value)
    ensures NotEqual(a, b, same) <==> a.value != b.value
  {
  }

  /** The outcome of the comparison does not depend on which identical nodes the identity test recognises. */
  lemma ComparisonIgnoresIdentity<T(!new)>(a: List<T>, b: List<T>,
                                         same1: (List<T>, List<T>) -> bool,
                                         same2: (List<T>, List<T>) -> bool)
    requires SoundIdentity(same1) && SoundIdentity(same2)
    ensures NotEqual(a, b, same1) == NotEqual(a, b, same2)
  {
  }

  /** Inserting the same value at the same position into equal chains gives equal chains. */
  lemma InsertRespectsEquality<T(!new)>(a: List<T>, b: List<T>, value: T, position: nat,
                                      same: (List<T>, List<T>) -> bool)
    requires SoundIdentity(same) && Valid(a) && Valid(b) && Equal(a, b, same)
    ensures Insert(a, value, position).Success? == Insert(b, value, position).Success?
    ensures Insert(a, value, position).Success? ==>
              Equal(Insert(a, value, position).value, Insert(b, value, position).value, same)
  {
    SizeIsLength(a);
    SizeIsLength(b);
  }
}
