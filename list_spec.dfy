// The effect of every operation of the linked list in main.c, stated on the
// abstract sequence of values held by the list, together with the return code
// the C function produces (0 for success, -1 for failure). The exception is
// the inputs on which the walk of insert_at_index, delete_at_index or
// delete_tail never leaves the head: the C code corrupts the list there, and
// InsertAtIndexOp, DeleteAtIndexOp and DeleteTailOp give the corrected result
// instead (the findings listed in README.md).

module ListSpec {

  const Ok := 0
  const Fail := -1

  /** Return code of a C function and the list contents it leaves behind. */
  datatype Outcome = Outcome(code: int, list: seq<int>)

  /** Return code of search_by_value and the value left in *findex. */
  datatype SearchOutcome = SearchOutcome(code: int, findex: int)

  datatype Option<T> = None | Some(value: T)

  // ---------------------------------------------------------------------------
  // Sequence vocabulary

  function Reversed<T>(s: seq<T>): seq<T>
  {
    if s == [] then [] else Reversed(s[1..]) + [s[0]]
  }

  /** `s` with `v` placed at 0-based slot `k`. */
  function InsertAt(s: seq<int>, k: nat, v: int): seq<int>
    requires k <= |s|
  {
    s[..k] + [v] + s[k..]
  }

  /** `s` without the element at 0-based slot `k`. */
  function RemoveAt(s: seq<int>, k: nat): seq<int>
    requires k < |s|
  {
    s[..k] + s[k + 1..]
  }

  /** Where each element of `s` sits once `x` is placed at slot `k`. */
  lemma InsertedIndexing<T>(s: seq<T>, k: nat, x: T)
    requires k <= |s|
    ensures var t := s[..k] + [x] + s[k..];
      |t| == |s| + 1 && t[k] == x &&
      (forall j :: 0 <= j < k ==> t[j] == s[j]) &&
      (forall j :: k < j < |t| ==> t[j] == s[j - 1])
  {
  }

  /** Where each element of `s` sits once slot `k` is taken out. */
  lemma RemovedIndexing<T>(s: seq<T>, k: nat)
    requires k < |s|
    ensures var t := s[..k] + s[k + 1..];
      |t| == |s| - 1 &&
      (forall j :: 0 <= j < k ==> t[j] == s[j]) &&
      (forall j :: k <= j < |t| ==> t[j] == s[j + 1])
  {
  }

  /** InsertAt puts `v` at slot `k`, and RemoveAt at `k` takes it back out. */
  lemma InsertAtThenRemoveAt(s: seq<int>, k: nat, v: int)
    requires k <= |s|
    ensures |InsertAt(s, k, v)| == |s| + 1 && InsertAt(s, k, v)[k] == v
    ensures RemoveAt(InsertAt(s, k, v), k) == s
  {
    var t := InsertAt(s, k, v);
    assert t[..k] == s[..k] && t[k + 1..] == s[k..];
    assert s[..k] + s[k..] == s;
  }

  /** RemoveAt keeps the values before slot `k` and drops exactly one copy of
      `s[k]`; InsertAt of that value at `k` restores `s`. */
  lemma RemoveAtThenInsertAt(s: seq<int>, k: nat)
    requires k < |s|
    ensures |RemoveAt(s, k)| == |s| - 1 && RemoveAt(s, k)[..k] == s[..k]
    ensures InsertAt(RemoveAt(s, k), k, s[k]) == s
    ensures multiset(RemoveAt(s, k)) == multiset(s) - multiset{s[k]}
  {
    var t := RemoveAt(s, k);
    assert t[..k] == s[..k] && t[k..] == s[k + 1..];
    assert s == s[..k] + [s[k]] + s[k + 1..];
  }

  /** The 0-based slot of the first occurrence of `v` in `s`. */
  function Find(s: seq<int>, v: int): (r: Option<nat>)
    ensures r.None? <==> v !in s
    ensures r.Some? ==> r.value < |s| && s[r.value] == v && v !in s[..r.value]
  {
    if s == [] then None
    else if s[0] == v then Some(0)
    else match Find(s[1..], v)
      case None => None
      case Some(k) =>
        assert s[..k + 1] == [s[0]] + s[1..][..k];
        Some(k + 1)
  }

  /** A match at `k` with none before it is what Find reports. */
  lemma FindFirst(s: seq<int>, v: int, k: nat)
    requires k < |s| && s[k] == v && v !in s[..k]
    ensures Find(s, v) == Some(k)
  {
  }

  /** The 0-based slot at which the traversal of insert_at_index and
      delete_at_index stops on a list of length `n`: it advances while there is
      a next node and fewer than `index - 1` steps were taken. */
  function StopSlot(index: int, n: nat): (k: nat)
    requires n >= 1
    ensures k < n
    ensures index >= 1 ==> k < index && (k == index - 1 || k == n - 1)
    ensures index < 1 ==> k == 0
  {
    if index <= 1 then 0 else if index <= n then index - 1 else n - 1
  }

  // ---------------------------------------------------------------------------
  // Inputs on which the C code does not dereference NULL: both walks start by
  // reading current->next with current == *head.

  /** insert_at_index with index >= 1 walks from the head. */
  predicate InsertAtIndexDefined(n: nat, index: int)
  {
    index <= 0 || n >= 1
  }

  /** delete_at_index with any index other than 1 or a negative one walks
      from the head. */
  predicate DeleteAtIndexDefined(n: nat, index: int)
  {
    index < 0 || index == 1 || n >= 1
  }

  // ---------------------------------------------------------------------------
  // One function per C operation

  function DeleteListOp(s: seq<int>): Outcome
  {
    if s == [] then Outcome(Fail, s) else Outcome(Ok, [])
  }

  function SearchOp(s: seq<int>, dvalue: int, findex: int): SearchOutcome
    requires s != []
  {
    match Find(s, dvalue)
    case Some(k) => SearchOutcome(Ok, k + 1)
    case None => SearchOutcome(Fail, findex)
  }

  function InsertAtFrontOp(s: seq<int>, newval: int): Outcome
  {
    Outcome(Ok, [newval] + s)
  }

  function InsertAtTailOp(s: seq<int>, newval: int): Outcome
  {
    if s == [] then InsertAtFrontOp(s, newval) else Outcome(Ok, s + [newval])
  }

  function InsertAtIndexOp(s: seq<int>, newval: int, index: int): Outcome
    requires InsertAtIndexDefined(|s|, index)
  {
    if index < 0 then Outcome(Fail, s)
    else if index == 0 then InsertAtFrontOp(s, newval)
    else Outcome(Ok, InsertAt(s, StopSlot(index, |s|), newval))
  }

  function DeleteHeadOp(s: seq<int>): Outcome
  {
    if s == [] then Outcome(Fail, s) else Outcome(Ok, s[1..])
  }

  function DeleteTailOp(s: seq<int>): Outcome
  {
    if s == [] then Outcome(Fail, s) else Outcome(Ok, s[..|s| - 1])
  }

  function DeleteAtIndexOp(s: seq<int>, index: int): Outcome
    requires DeleteAtIndexDefined(|s|, index)
  {
    if index < 0 then Outcome(Fail, s)
    else if index == 1 then DeleteHeadOp(s)
    else Outcome(Ok, RemoveAt(s, StopSlot(index, |s|)))
  }

  /** delete_by_value: search_by_value, then delete_at_index at the position found. */
  function DeleteByValueOp(s: seq<int>, value: int): Outcome
    requires s != []
  {
    var found := SearchOp(s, value, 0);
    if found.code != Fail then DeleteAtIndexOp(s, found.findex) else Outcome(Fail, s)
  }

  function ReverseOp(s: seq<int>): Outcome
  {
    Outcome(Ok, Reversed(s))
  }

  // ---------------------------------------------------------------------------
  // Reversal

  lemma {:induction false} ReversedAt<T>(s: seq<T>)
    ensures |Reversed(s)| == |s|
    ensures forall i :: 0 <= i < |s| ==> Reversed(s)[i] == s[|s| - 1 - i]
  {
    if s != [] {
      ReversedAt(s[1..]);
    }
  }

  lemma {:induction false} ReversedAppend<T>(a: seq<T>, b: seq<T>)
    ensures Reversed(a + b) == Reversed(b) + Reversed(a)
  {
    if a == [] {
      assert a + b == b;
    } else {
      assert (a + b)[1..] == a[1..] + b;
      ReversedAppend(a[1..], b);
    }
  }

  /** Reversing twice restores the original order. */
  lemma {:induction false} ReversedInvolution<T>(s: seq<T>)
    ensures Reversed(Reversed(s)) == s
  {
    if s != [] {
      ReversedInvolution(s[1..]);
      ReversedAppend(Reversed(s[1..]), [s[0]]);
      assert Reversed([s[0]]) == [s[0]];
      assert [s[0]] + s[1..] == s;
    }
  }

  /** reverse_list always succeeds, puts the values in reverse order, leaves
      empty and one-element lists as they are, and undoes itself. */
  lemma ReverseSpec(s: seq<int>)
    ensures ReverseOp(s).code == Ok && |ReverseOp(s).list| == |s|
    ensures forall i :: 0 <= i < |s| ==> ReverseOp(s).list[i] == s[|s| - 1 - i]
    ensures |s| <= 1 ==> ReverseOp(s).list == s
    ensures ReverseOp(ReverseOp(s).list) == Outcome(Ok, s)
  {
    ReversedAt(s);
    ReversedInvolution(s);
  }

  // ---------------------------------------------------------------------------
  // Front and tail insertion, and their inverses

  /** Inserting each of `xs` at the front yields them in reverse order ahead of
      the old contents. */
  function InsertAllAtFront(s: seq<int>, xs: seq<int>): seq<int>
    decreases xs
  {
    if xs == [] then s else InsertAllAtFront(InsertAtFrontOp(s, xs[0]).list, xs[1..])
  }

  function InsertAllAtTail(s: seq<int>, xs: seq<int>): seq<int>
    decreases xs
  {
    if xs == [] then s else InsertAllAtTail(InsertAtTailOp(s, xs[0]).list, xs[1..])
  }

  lemma {:induction false} InsertAllAtFrontReverses(s: seq<int>, xs: seq<int>)
    ensures InsertAllAtFront(s, xs) == Reversed(xs) + s
    decreases xs
  {
    if xs != [] {
      InsertAllAtFrontReverses([xs[0]] + s, xs[1..]);
      assert Reversed(xs) == Reversed(xs[1..]) + [xs[0]];
    }
  }

  lemma {:induction false} InsertAllAtTailKeepsOrder(s: seq<int>, xs: seq<int>)
    ensures InsertAllAtTail(s, xs) == s + xs
    decreases xs
  {
    if xs != [] {
      assert InsertAtTailOp(s, xs[0]).list == s + [xs[0]];
      InsertAllAtTailKeepsOrder(s + [xs[0]], xs[1..]);
      assert s + [xs[0]] + xs[1..] == s + xs;
    }
  }

  /** insert_at_tail on an empty list is insert_at_front; both always succeed,
      and delete_head / delete_tail take the inserted value back off. */
  lemma InsertEndsRoundTrip(s: seq<int>, v: int)
    ensures InsertAtFrontOp(s, v) == Outcome(Ok, [v] + s)
    ensures InsertAtTailOp(s, v) == Outcome(Ok, s + [v])
    ensures s == [] ==> InsertAtTailOp(s, v) == InsertAtFrontOp(s, v)
    ensures DeleteHeadOp(InsertAtFrontOp(s, v).list) == Outcome(Ok, s)
    ensures s != [] ==> DeleteTailOp(InsertAtTailOp(s, v).list) == Outcome(Ok, s)
  {
    assert ([v] + s)[1..] == s;
    assert (s + [v])[..|s|] == s;
  }

  // ---------------------------------------------------------------------------
  // Search

  /** search_by_value reports the 1-based position of the first match and
      leaves *findex alone when there is none. */
  lemma SearchSpec(s: seq<int>, dvalue: int, findex: int)
    requires s != []
    ensures SearchOp(s, dvalue, findex).code == Ok <==> dvalue in s
    ensures SearchOp(s, dvalue, findex).code == Fail <==> dvalue !in s
    ensures var p := SearchOp(s, dvalue, findex).findex;
      if dvalue in s
      then 1 <= p <= |s| && s[p - 1] == dvalue && dvalue !in s[..p - 1]
      else p == findex
  {
  }

  // ---------------------------------------------------------------------------
  // Insertion by index

  /** insert_at_index rejects a negative index, treats index 0 as
      insert_at_front, and otherwise puts the value at 1-based position
      min(index, n) with every other value keeping its order. At position 1
      (index 1, or a one-node list) this is the corrected result, the front:
      the C code links the head and the new node to each other there. */
  lemma InsertAtIndexSpec(s: seq<int>, v: int, index: int)
    requires InsertAtIndexDefined(|s|, index)
    ensures var o := InsertAtIndexOp(s, v, index);
      (o.code == Fail <==> index < 0) && (o.code == Ok <==> index >= 0)
    ensures index < 0 ==> InsertAtIndexOp(s, v, index).list == s
    ensures index == 0 ==> InsertAtIndexOp(s, v, index) == InsertAtFrontOp(s, v)
    ensures index >= 1 ==>
      var o := InsertAtIndexOp(s, v, index);
      var p := if index < |s| then index else |s|;
      |o.list| == |s| + 1 && o.list[p - 1] == v && RemoveAt(o.list, p - 1) == s
    ensures index == 1 ==> InsertAtIndexOp(s, v, index) == InsertAtFrontOp(s, v)
  {
    if index >= 1 {
      InsertAtThenRemoveAt(s, StopSlot(index, |s|), v);
    }
  }

  /** An index at or past the length puts the value just before the last
      node, so the result matches insert_at_tail only when the value equals
      the last one already there. */
  lemma InsertAtIndexPastEnd(s: seq<int>, v: int, index: int)
    requires |s| >= 1 && index >= |s| && index >= 1
    ensures InsertAtIndexOp(s, v, index).list == s[..|s| - 1] + [v, s[|s| - 1]]
    ensures InsertAtIndexOp(s, v, index) == InsertAtTailOp(s, v) <==> v == s[|s| - 1]
  {
    var n := |s|;
    var t := InsertAtIndexOp(s, v, index).list;
    assert t == s[..n - 1] + [v] + s[n - 1..];
    assert s[n - 1..] == [s[n - 1]];
    assert t == s[..n - 1] + [v, s[n - 1]];
    if t == s + [v] {
      assert t[n] == s[n - 1];
    }
    if v == s[n - 1] {
      assert s == s[..n - 1] + [s[n - 1]];
    }
  }

  // ---------------------------------------------------------------------------
  // Deletion

  /** delete_head and delete_tail fail on an empty list and leave it empty;
      otherwise they drop the first, respectively the last, value. For
      delete_tail on a one-node list this is the corrected result: the C code
      frees the node and leaves *head pointing at it. */
  lemma DeleteEndsSpec(s: seq<int>)
    ensures s == [] ==> DeleteHeadOp(s) == Outcome(Fail, []) && DeleteTailOp(s) == Outcome(Fail, [])
    ensures s != [] ==>
      DeleteHeadOp(s).code == Ok && InsertAtFrontOp(DeleteHeadOp(s).list, s[0]).list == s
    ensures s != [] ==>
      DeleteTailOp(s).code == Ok && InsertAtTailOp(DeleteTailOp(s).list, s[|s| - 1]).list == s
  {
    if s != [] {
      assert [s[0]] + s[1..] == s;
      assert s[..|s| - 1] + [s[|s| - 1]] == s;
    }
  }

  /** delete_at_index rejects a negative index, treats index 1 as
      delete_head, and otherwise removes the value at 1-based position
      max(1, min(index, n)), so an index at or past the end deletes the tail.
      At position 1 (index 0, or a one-node list) this is the corrected
      result, the head: the C code frees the head without moving *head. */
  lemma DeleteAtIndexSpec(s: seq<int>, index: int)
    requires DeleteAtIndexDefined(|s|, index)
    ensures var o := DeleteAtIndexOp(s, index);
      index < 0 ==> o == Outcome(Fail, s)
    ensures index == 1 ==> DeleteAtIndexOp(s, index) == DeleteHeadOp(s)
    ensures index == 0 ==> DeleteAtIndexOp(s, index) == DeleteHeadOp(s)
    ensures index >= 2 ==>
      var o := DeleteAtIndexOp(s, index);
      var p := if index < |s| then index else |s|;
      o.code == Ok && |o.list| == |s| - 1 && InsertAt(o.list, p - 1, s[p - 1]) == s
    ensures index >= 2 && index >= |s| ==> DeleteAtIndexOp(s, index) == DeleteTailOp(s)
  {
    if index >= 2 {
      RemoveAtThenInsertAt(s, StopSlot(index, |s|));
    } else if index == 0 {
      assert RemoveAt(s, 0) == s[1..];
    }
  }

  /** Inserting at a position inside the list and deleting at the same index
      restores the list. At index 1 this rests on the corrected insertion. */
  lemma InsertThenDeleteAtIndex(s: seq<int>, v: int, index: int)
    requires 1 <= index <= |s|
    ensures var t := InsertAtIndexOp(s, v, index).list;
      DeleteAtIndexDefined(|t|, index) && DeleteAtIndexOp(t, index) == Outcome(Ok, s)
  {
    var k := index - 1;
    InsertAtThenRemoveAt(s, k, v);
    if index >= 2 {
      assert StopSlot(index, |s| + 1) == k;
    }
  }

  /** Past the end the two index conventions part: the value lands before the
      old tail, and deleting at the same index removes the old tail instead.
      On a one-node list this rests on the corrected insertion. */
  lemma InsertThenDeletePastEnd(s: seq<int>, v: int, index: int)
    requires |s| >= 1 && index > |s|
    ensures var t := InsertAtIndexOp(s, v, index).list;
      DeleteAtIndexDefined(|t|, index) && DeleteAtIndexOp(t, index) == Outcome(Ok, s[..|s| - 1] + [v])
  {
    var n := |s|;
    var t := InsertAt(s, n - 1, v);
    assert |t| == n + 1;
    assert StopSlot(index, |t|) == n;
    assert RemoveAt(t, n) == t[..n];
    assert t[..n] == s[..n - 1] + [v];
  }

  /** delete_by_value removes exactly the first occurrence of the value, or
      fails and leaves the list unchanged when the value is absent. */
  lemma DeleteByValueSpec(s: seq<int>, value: int)
    requires s != []
    ensures value !in s ==> DeleteByValueOp(s, value) == Outcome(Fail, s)
    ensures value in s ==>
      var o := DeleteByValueOp(s, value);
      var k := Find(s, value).value;
      o.code == Ok && |o.list| == |s| - 1 &&
      o.list[..k] == s[..k] && value !in o.list[..k] &&
      InsertAt(o.list, k, value) == s &&
      multiset(o.list) == multiset(s) - multiset{value}
  {
    if value in s {
      var k := Find(s, value).value;
      if k == 0 {
        assert RemoveAt(s, 0) == s[1..];
      }
      assert DeleteByValueOp(s, value).list == RemoveAt(s, k);
      RemoveAtThenInsertAt(s, k);
    }
  }
}
