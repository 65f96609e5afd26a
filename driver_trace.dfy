// The call sequence of the demonstration driver in main.c (lines 267-373),
// replayed step by step on the specification of each operation.

module DriverTrace {
  import opened ListSpec

  /** Three insertions at the front and three at the tail build 1..6. */
  lemma DriverBuildsList()
    ensures InsertAllAtTail(InsertAllAtFront([], [3, 2, 1]), [4, 5, 6]) == [1, 2, 3, 4, 5, 6]
  {
    InsertAllAtFrontReverses([], [3, 2, 1]);
    assert [3, 2, 1][1..] == [2, 1] && [2, 1][1..] == [1];
    assert Reversed([3, 2, 1]) + [] == [1, 2, 3];
    InsertAllAtTailKeepsOrder([1, 2, 3], [4, 5, 6]);
  }

  /** Reversing twice gives back 1..6. */
  lemma DriverReversesTwice()
    ensures ReverseOp([1, 2, 3, 4, 5, 6]) == Outcome(Ok, [6, 5, 4, 3, 2, 1])
    ensures ReverseOp([6, 5, 4, 3, 2, 1]) == Outcome(Ok, [1, 2, 3, 4, 5, 6])
  {
    var s := [1, 2, 3, 4, 5, 6];
    ReverseSpec(s);
    assert Reversed(s) == [6, 5, 4, 3, 2, 1];
  }

  /** 666 at index 4 lands at position 4; 888 at index 7 of a seven-element
      list lands in front of the last value. */
  lemma DriverInsertsByIndex()
    ensures InsertAtIndexOp([1, 2, 3, 4, 5, 6], 666, 4) == Outcome(Ok, [1, 2, 3, 666, 4, 5, 6])
    ensures InsertAtIndexOp([1, 2, 3, 666, 4, 5, 6], 888, 7) == Outcome(Ok, [1, 2, 3, 666, 4, 5, 888, 6])
  {
    var s := [1, 2, 3, 4, 5, 6];
    assert s[..3] == [1, 2, 3] && s[3..] == [4, 5, 6];
    var t := [1, 2, 3, 666, 4, 5, 6];
    assert t[..6] == [1, 2, 3, 666, 4, 5] && t[6..] == [6];
  }

  /** The first search finds 666 at position 4. */
  lemma DriverSearchFinds666()
    ensures SearchOp([1, 2, 3, 666, 4, 5, 888, 6], 666, 0) == SearchOutcome(Ok, 4)
  {
    var s := [1, 2, 3, 666, 4, 5, 888, 6];
    assert s[..3] == [1, 2, 3];
    FindFirst(s, 666, 3);
  }

  /** After 666 is deleted, 2 and 3 are found at positions 2 and 3. */
  lemma DriverSearchFinds2And3()
    ensures SearchOp([1, 2, 3, 4, 5, 888, 6], 2, 4) == SearchOutcome(Ok, 2)
    ensures SearchOp([1, 2, 3, 4, 5, 888, 6], 3, 2) == SearchOutcome(Ok, 3)
  {
    var t := [1, 2, 3, 4, 5, 888, 6];
    assert t[..1] == [1] && t[..2] == [1, 2];
    FindFirst(t, 2, 1);
    FindFirst(t, 3, 2);
  }

  /** The search for 777 fails and leaves the last reported index, 3, in
      *findex. */
  lemma DriverSearchMisses()
    ensures SearchOp([1, 2, 3, 4, 5, 888, 6], 777, 3) == SearchOutcome(Fail, 3)
  {
    var t := [1, 2, 3, 4, 5, 888, 6];
    assert forall i :: 0 <= i < |t| ==> t[i] != 777;
  }

  /** delete_by_value removes the 666 that was inserted. */
  lemma DriverDeletesByValue()
    ensures DeleteByValueOp([1, 2, 3, 666, 4, 5, 888, 6], 666) == Outcome(Ok, [1, 2, 3, 4, 5, 888, 6])
  {
    var s := [1, 2, 3, 666, 4, 5, 888, 6];
    assert s[..3] == [1, 2, 3];
    FindFirst(s, 666, 3);
    assert s[..3] + s[4..] == [1, 2, 3, 4, 5, 888, 6];
  }

  /** The deletions at the head, the tail and by index shrink the list to
      888, and delete_list empties it. */
  lemma DriverDeletes()
    ensures DeleteHeadOp([1, 2, 3, 4, 5, 888, 6]) == Outcome(Ok, [2, 3, 4, 5, 888, 6])
    ensures DeleteTailOp([2, 3, 4, 5, 888, 6]) == Outcome(Ok, [2, 3, 4, 5, 888])
    ensures DeleteAtIndexOp([2, 3, 4, 5, 888], 3) == Outcome(Ok, [2, 3, 5, 888])
    ensures DeleteAtIndexOp([2, 3, 5, 888], 2) == Outcome(Ok, [2, 5, 888])
    ensures DeleteAtIndexOp([2, 5, 888], 1) == Outcome(Ok, [5, 888])
    ensures DeleteAtIndexOp([5, 888], 1) == Outcome(Ok, [888])
    ensures DeleteListOp([888]) == Outcome(Ok, [])
  {
    var a := [2, 3, 4, 5, 888];
    assert a[..2] + a[3..] == [2, 3, 5, 888];
    var b := [2, 3, 5, 888];
    assert b[..1] + b[2..] == [2, 5, 888];
  }

  /** The lists main leaves after each of its calls, and what its four
      searches report. */
  datatype MainRun = MainRun(searches: seq<SearchOutcome>, lists: seq<seq<int>>)

  /** main, each call applied to the list the call before it left, with
      *findex carried from one search to the next: the searches report 4, 2,
      3 and then -1 with *findex left at 3, and the list goes through these
      states until delete_list empties it. */
  function RunMain(): (run: MainRun)
    ensures run.searches ==
      [SearchOutcome(Ok, 4), SearchOutcome(Ok, 2), SearchOutcome(Ok, 3), SearchOutcome(Fail, 3)]
    ensures run.lists == [
      [1, 2, 3, 4, 5, 6], [6, 5, 4, 3, 2, 1], [1, 2, 3, 4, 5, 6],
      [1, 2, 3, 666, 4, 5, 6], [1, 2, 3, 666, 4, 5, 888, 6], [1, 2, 3, 4, 5, 888, 6],
      [2, 3, 4, 5, 888, 6], [2, 3, 4, 5, 888], [2, 3, 5, 888], [2, 5, 888], [5, 888], [888], []]
  {
    DriverBuildsList();
    var built := InsertAllAtTail(InsertAllAtFront([], [3, 2, 1]), [4, 5, 6]);
    DriverReversesTwice();
    var rev1 := ReverseOp(built).list;
    var rev2 := ReverseOp(rev1).list;
    DriverInsertsByIndex();
    var ins1 := InsertAtIndexOp(rev2, 666, 4).list;
    var ins2 := InsertAtIndexOp(ins1, 888, 7).list;
    DriverSearchFinds666();
    var found666 := SearchOp(ins2, 666, 0);
    DriverDeletesByValue();
    var less666 := DeleteByValueOp(ins2, 666).list;
    DriverSearchFinds2And3();
    var found2 := SearchOp(less666, 2, found666.findex);
    var found3 := SearchOp(less666, 3, found2.findex);
    DriverSearchMisses();
    var missed := SearchOp(less666, 777, found3.findex);
    DriverDeletes();
    var noHead := DeleteHeadOp(less666).list;
    var noTail := DeleteTailOp(noHead).list;
    var no3 := DeleteAtIndexOp(noTail, 3).list;
    var no2 := DeleteAtIndexOp(no3, 2).list;
    var no1 := DeleteAtIndexOp(no2, 1).list;
    var last := DeleteAtIndexOp(no1, 1).list;
    var cleared := DeleteListOp(last).list;
    MainRun([found666, found2, found3, missed],
            [built, rev1, rev2, ins1, ins2, less666, noHead, noTail, no3, no2, no1, last, cleared])
  }
}
