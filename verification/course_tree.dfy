/** `CourseTree` of DSA-project/file.cpp: an unbalanced binary search tree of
    course codes, ordered by `std::string::operator<`.

    The pointer-linked `CourseNode`s become an inductive datatype: each node
    owns its two subtrees, so there is no sharing and no cycle.  `insertRec`
    becomes the pure function `Insert` (it returns the new root, as the C++ code
    does), and `inOrder`, which prints one line per code, becomes `InOrder`,
    the sequence of codes in the order they are printed.
 */
module CourseTree {
  import opened StringOrder

  datatype Tree = Leaf | Node(left: Tree, key: string, right: Tree)

  /** The course codes stored in a tree. */
  function Keys(t: Tree): set<string> {
    match t
    case Leaf => {}
    case Node(l, k, r) => Keys(l) + {k} + Keys(r)
  }

  /** Every key of the left subtree is smaller than its node's key and every
      key of the right subtree is greater, at every node. */
  ghost predicate IsBst(t: Tree) {
    match t
    case Leaf => true
    case Node(l, k, r) =>
      && IsBst(l)
      && IsBst(r)
      && (forall x :: x in Keys(l) ==> Less(x, k))
      && (forall x :: x in Keys(r) ==> Less(k, x))
  }

  /** Each element is smaller than every later one: ascending, with no repeats. */
  ghost predicate StrictlyAscending(s: seq<string>) {
    forall i, j :: 0 <= i < j < |s| ==> Less(s[i], s[j])
  }

  /** `insertRec`: descend left while the code is smaller, right while it is
      greater, and hang a new node at the empty spot; a code equal to a node's
      key stops the descent and leaves the tree as it was. */
  function Insert(t: Tree, code: string): (r: Tree)
    ensures Keys(r) == Keys(t) + {code}
    ensures IsBst(t) ==> IsBst(r)
  {
    match t
    case Leaf => Node(Leaf, code, Leaf)
    case Node(l, k, rt) =>
      if Less(code, k) then Node(Insert(l, code), k, rt)
      else if Less(k, code) then Node(l, k, Insert(rt, code))
      else LessTrichotomy(code, k); t
  }

  /** In a search tree, inserting a code leaves the tree unchanged exactly when
      the code is already stored: duplicates are ignored, new codes are added. */
  lemma {:induction false} InsertUnchangedIffPresent(t: Tree, code: string)
    requires IsBst(t)
    ensures Insert(t, code) == t <==> code in Keys(t)
  {
    match t
    case Leaf =>
    case Node(l, k, rt) =>
      if code in Keys(l) {
        InsertUnchangedIffPresent(l, code);
      } else if code in Keys(rt) {
        LessAsymmetric(k, code);
        InsertUnchangedIffPresent(rt, code);
      } else if code == k {
        LessIrreflexive(k);
      }
  }

  /** `inOrder`: the left subtree's codes, then the node's, then the right
      subtree's.  Every stored code is listed and nothing else is. */
  function InOrder(t: Tree): (s: seq<string>)
    ensures forall x :: x in s <==> x in Keys(t)
  {
    match t
    case Leaf => []
    case Node(l, k, r) => InOrder(l) + [k] + InOrder(r)
  }

  /** Joining two ascending runs around a separating key gives an ascending run. */
  lemma JoinAscending(a: seq<string>, k: string, b: seq<string>)
    requires StrictlyAscending(a) && StrictlyAscending(b)
    requires forall x :: x in a ==> Less(x, k)
    requires forall y :: y in b ==> Less(k, y)
    ensures StrictlyAscending(a + [k] + b)
  {
    var s := a + [k] + b;
    forall i, j | 0 <= i < j < |s|
      ensures Less(s[i], s[j])
    {
      if j < |a| {
        assert s[i] == a[i] && s[j] == a[j];
      } else if i > |a| {
        assert s[i] == b[i - |a| - 1] && s[j] == b[j - |a| - 1];
      } else if i == |a| {
        assert s[j] in b;
      } else if j == |a| {
        assert s[i] in a;
      } else {
        assert s[i] in a && s[j] in b;
        LessTransitive(s[i], k, s[j]);
      }
    }
  }

  /** An ascending run split around one of its elements: both parts are
      ascending and lie on either side of that element. */
  lemma SplitAscending(a: seq<string>, k: string, b: seq<string>)
    requires StrictlyAscending(a + [k] + b)
    ensures StrictlyAscending(a) && StrictlyAscending(b)
    ensures forall x :: x in a ==> Less(x, k)
    ensures forall y :: y in b ==> Less(k, y)
  {
    var s := a + [k] + b;
    forall i, j | 0 <= i < j < |a|
      ensures Less(a[i], a[j])
    {
      assert a[i] == s[i] && a[j] == s[j];
    }
    forall i, j | 0 <= i < j < |b|
      ensures Less(b[i], b[j])
    {
      assert b[i] == s[|a| + 1 + i] && b[j] == s[|a| + 1 + j];
    }
    forall x | x in a
      ensures Less(x, k)
    {
      var i :| 0 <= i < |a| && a[i] == x;
      assert s[i] == x && s[|a|] == k;
    }
    forall y | y in b
      ensures Less(k, y)
    {
      var j :| 0 <= j < |b| && b[j] == y;
      assert s[|a| + 1 + j] == y && s[|a|] == k;
    }
  }

  /** A tree is a search tree exactly when its in-order listing is strictly
      ascending; in particular the listing of a search tree has no repeats. */
  lemma {:induction false} BstIffInOrderAscending(t: Tree)
    ensures IsBst(t) <==> StrictlyAscending(InOrder(t))
  {
    match t
    case Leaf =>
    case Node(l, k, r) =>
      BstIffInOrderAscending(l);
      BstIffInOrderAscending(r);
      if IsBst(t) {
        JoinAscending(InOrder(l), k, InOrder(r));
      }
      if StrictlyAscending(InOrder(t)) {
        SplitAscending(InOrder(l), k, InOrder(r));
      }
  }

  /** A strictly ascending listing repeats no code. */
  lemma AscendingHasNoRepeats(s: seq<string>)
    requires StrictlyAscending(s)
    ensures forall i, j :: 0 <= i < j < |s| ==> s[i] != s[j]
  {
  }

  /** A catalog built by inserting `codes` one after another into `t`. */
  function InsertAll(t: Tree, codes: seq<string>): (r: Tree)
    ensures Keys(r) == Keys(t) + set c | c in codes
    ensures IsBst(t) ==> IsBst(r)
    decreases |codes|
  {
    if |codes| == 0 then t
    else InsertAll(Insert(t, codes[0]), codes[1..])
  }

  /** Whatever order the codes are inserted in, starting from the empty tree,
      the listing is strictly ascending, has no repeats, and holds exactly the
      inserted codes. */
  lemma CatalogListing(codes: seq<string>)
    ensures StrictlyAscending(InOrder(InsertAll(Leaf, codes)))
    ensures forall x :: x in InOrder(InsertAll(Leaf, codes)) <==> x in codes
    ensures forall i, j :: 0 <= i < j < |InOrder(InsertAll(Leaf, codes))| ==>
              InOrder(InsertAll(Leaf, codes))[i] != InOrder(InsertAll(Leaf, codes))[j]
  {
    var t := InsertAll(Leaf, codes);
    BstIffInOrderAscending(t);
    AscendingHasNoRepeats(InOrder(t));
  }
}
