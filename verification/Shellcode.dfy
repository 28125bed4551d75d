/** The answer accumulator of python_shellcode_gen.c. The client's bytes arrive in pieces: every check is given
    a FILE of its own (server_worker.c), which reads ahead, and what it read but the check did not take is
    dropped with it. */
module Shellcode {
  import opened Common

  const ANSWER_LEN: nat := 32

  class Task {
    const answer: seq<char>
    const userAnswer: array<char>
    var userAnswerLen: nat

    ghost var received: seq<char>   // taken since the task was made or last gave a verdict

    ghost predicate Valid()
      reads this, userAnswer
    {
      && |answer| == ANSWER_LEN
      && userAnswer.Length == ANSWER_LEN
      && userAnswerLen == |received| < ANSWER_LEN
      && userAnswer[..userAnswerLen] == received
    }

    constructor (answer: seq<char>)
      requires |answer| == ANSWER_LEN
      ensures Valid() && fresh(userAnswer) && this.answer == answer && received == []
    {
      this.answer := answer;
      userAnswer := new char[ANSWER_LEN];
      userAnswerLen := 0;
      received := [];
      new;
      assert userAnswer[..0] == [];
    }

    /** `python_shellcode_check`; `piece` is what the FILE of this check read from the socket, all of which is
        gone from the socket afterwards. `taken` is how much of it `fread` hands over. */
    method Check(piece: seq<char>) returns (r: AnswerState, taken: nat)
      requires Valid()
      modifies this, userAnswer
      ensures Valid()
      ensures taken == Min(|piece|, ANSWER_LEN - |old(received)|)
      ensures r == More <==> |old(received)| + |piece| < 32
      ensures r == Right <==> |old(received)| + |piece| >= 32 && (old(received) + piece)[..32] == answer
      ensures (r, received) == Feed(answer, old(received), piece)
    {
      KeptIsFirst(received, piece);
      var needed := ANSWER_LEN - userAnswerLen;
      taken := Min(|piece|, needed);
      ghost var before := userAnswer[..];
      forall i | 0 <= i < taken {
        userAnswer[userAnswerLen + i] := piece[i];
      }
      ghost var all := received + piece[..taken];
      assert userAnswer[..userAnswerLen] == before[..userAnswerLen];
      assert userAnswer[..userAnswerLen + taken] == all;
      if taken < needed {
        userAnswerLen := userAnswerLen + taken;
        received := all;
        return More, taken;
      }
      userAnswerLen := 0;
      received := [];
      assert userAnswer[..] == all;
      r := if userAnswer[..] == answer then Right else Wrong;
    }
  }

  /** What a check takes of a piece. */
  function Kept(received: seq<char>, piece: seq<char>): seq<char>
    requires |received| < ANSWER_LEN
  {
    piece[..Min(|piece|, ANSWER_LEN - |received|)]
  }

  lemma KeptIsFirst(received: seq<char>, piece: seq<char>)
    requires |received| < ANSWER_LEN
    ensures |received| + |piece| >= ANSWER_LEN ==> received + Kept(received, piece) == (received + piece)[..ANSWER_LEN]
  {
  }

  /** The effect of one piece. */
  ghost function Feed(answer: seq<char>, received: seq<char>, piece: seq<char>): (f: (AnswerState, seq<char>))
    requires |received| < ANSWER_LEN
    ensures |f.1| < ANSWER_LEN
  {
    var all := received + Kept(received, piece);
    if |all| < ANSWER_LEN then (More, all)
    else (if all == answer then Right else Wrong, [])
  }

  // -------- Whole conversations --------

  function Joined(pieces: seq<seq<char>>): seq<char> {
    if pieces == [] then [] else pieces[0] + Joined(pieces[1..])
  }

  /** The verdicts other than `More` over a run of checks. */
  ghost function Verdicts(answer: seq<char>, received: seq<char>, pieces: seq<seq<char>>): seq<AnswerState>
    requires |received| < ANSWER_LEN
    decreases |pieces|
  {
    if pieces == [] then []
    else
      var (r, kept) := Feed(answer, received, pieces[0]);
      (if r == More then [] else [r]) + Verdicts(answer, kept, pieces[1..])
  }

  /** The bytes that the checks of the run take. */
  ghost function AllKept(answer: seq<char>, received: seq<char>, pieces: seq<seq<char>>): seq<char>
    requires |received| < ANSWER_LEN
    decreases |pieces|
  {
    if pieces == [] then []
    else Kept(received, pieces[0]) + AllKept(answer, Feed(answer, received, pieces[0]).1, pieces[1..])
  }

  /** No piece is longer than what is needed when it arrives. */
  ghost predicate Fits(answer: seq<char>, received: seq<char>, pieces: seq<seq<char>>)
    requires |received| < ANSWER_LEN
    decreases |pieces|
  {
    pieces != [] ==>
      && |received| + |pieces[0]| <= ANSWER_LEN
      && Fits(answer, Feed(answer, received, pieces[0]).1, pieces[1..])
  }

  /** The verdicts from a byte stream alone: one for each full answer in it. */
  function StreamVerdicts(answer: seq<char>, bytes: seq<char>): (v: seq<AnswerState>)
    ensures |v| == |bytes| / ANSWER_LEN
  {
    if |bytes| < ANSWER_LEN then []
    else [if bytes[..ANSWER_LEN] == answer then Right else Wrong] + StreamVerdicts(answer, bytes[ANSWER_LEN..])
  }

  /** However the input is cut, the verdicts are those of the stream of the bytes taken. */
  lemma {:induction false} VerdictsOfKept(answer: seq<char>, received: seq<char>, pieces: seq<seq<char>>)
    requires |answer| == ANSWER_LEN && |received| < ANSWER_LEN
    ensures Verdicts(answer, received, pieces)
         == StreamVerdicts(answer, received + AllKept(answer, received, pieces))
    decreases |pieces|
  {
    if pieces == [] {
      assert received + [] == received;
    } else {
      hide Kept;
      var all := received + Kept(received, pieces[0]);
      var next := Feed(answer, received, pieces[0]).1;
      var rest := AllKept(answer, next, pieces[1..]);
      assert received + AllKept(answer, received, pieces) == all + rest;
      VerdictsOfKept(answer, next, pieces[1..]);
      if |all| == ANSWER_LEN {
        assert [] + rest == rest;
        assert (all + rest)[..ANSWER_LEN] == all;
        assert (all + rest)[ANSWER_LEN..] == rest;
      }
    }
  }

  /** The bytes taken are all the bytes exactly when every piece fits. */
  lemma {:induction false} KeptIff(answer: seq<char>, received: seq<char>, pieces: seq<seq<char>>)
    requires |received| < ANSWER_LEN
    ensures |AllKept(answer, received, pieces)| <= |Joined(pieces)|
    ensures AllKept(answer, received, pieces) == Joined(pieces) <==> Fits(answer, received, pieces)
    ensures |AllKept(answer, received, pieces)| == |Joined(pieces)| ==> Fits(answer, received, pieces)
    decreases |pieces|
  {
    if pieces != [] {
      KeptIff(answer, Feed(answer, received, pieces[0]).1, pieces[1..]);
    }
  }

  /** While every piece fits, the verdicts are those of the client's bytes, however they are cut. */
  lemma {:induction false} CutsDoNotMatter(answer: seq<char>, received: seq<char>, pieces: seq<seq<char>>)
    requires |answer| == ANSWER_LEN && |received| < ANSWER_LEN
    requires Fits(answer, received, pieces)
    ensures Verdicts(answer, received, pieces) == StreamVerdicts(answer, received + Joined(pieces))
  {
    VerdictsOfKept(answer, received, pieces);
    KeptIff(answer, received, pieces);
  }

  /** The verdicts so far, and those after any further input that fits, are those of the client's bytes. */
  ghost predicate FollowsTheClient(answer: seq<char>, pieces: seq<seq<char>>) {
    forall more: seq<seq<char>> :: Fits(answer, AfterAll(answer, [], pieces), more) ==>
      Verdicts(answer, [], pieces + more) == StreamVerdicts(answer, Joined(pieces + more))
  }

  /** What is still pending after a run. */
  ghost function AfterAll(answer: seq<char>, received: seq<char>, pieces: seq<seq<char>>): (r: seq<char>)
    requires |received| < ANSWER_LEN
    ensures |r| < ANSWER_LEN
    decreases |pieces|
  {
    if pieces == [] then received else AfterAll(answer, Feed(answer, received, pieces[0]).1, pieces[1..])
  }

  lemma {:induction false} RunTwice(answer: seq<char>, received: seq<char>, pieces: seq<seq<char>>,
                                    more: seq<seq<char>>)
    requires |received| < ANSWER_LEN
    ensures Fits(answer, received, pieces + more)
       <==> Fits(answer, received, pieces) && Fits(answer, AfterAll(answer, received, pieces), more)
    ensures AllKept(answer, received, pieces + more)
         == AllKept(answer, received, pieces) + AllKept(answer, AfterAll(answer, received, pieces), more)
    ensures Joined(pieces + more) == Joined(pieces) + Joined(more)
    decreases |pieces|
  {
    if pieces == [] {
      assert pieces + more == more;
    } else {
      hide Kept, Feed;
      var all, next := pieces + more, Feed(answer, received, pieces[0]).1;
      assert all[0] == pieces[0] && all[1..] == pieces[1..] + more;
      RunTwice(answer, next, pieces[1..], more);
      var last := AfterAll(answer, next, pieces[1..]);
      Regroup(Kept(received, pieces[0]), AllKept(answer, next, pieces[1..]), AllKept(answer, last, more));
      Regroup(pieces[0], Joined(pieces[1..]), Joined(more));
    }
  }

  /** How much is pending after a run. */
  lemma {:induction false} PendingLength(answer: seq<char>, received: seq<char>, pieces: seq<seq<char>>)
    requires |received| < ANSWER_LEN
    ensures |AfterAll(answer, received, pieces)|
         == (|received| + |AllKept(answer, received, pieces)|) % ANSWER_LEN
    decreases |pieces|
  {
    if pieces != [] {
      var next := Feed(answer, received, pieces[0]).1;
      var rest := AllKept(answer, next, pieces[1..]);
      assert |next| == (|received| + |Kept(received, pieces[0])|) % ANSWER_LEN;
      assert |AllKept(answer, received, pieces)| == |Kept(received, pieces[0])| + |rest|;
      hide Kept, Feed, AllKept;
      PendingLength(answer, next, pieces[1..]);
    }
  }

  /** The program follows what the client sends exactly as long as no piece is longer than what is needed when it
      arrives. The surplus of a longer one is lost, and some later input shows it. */
  lemma FollowsIff(answer: seq<char>, pieces: seq<seq<char>>)
    requires |answer| == ANSWER_LEN
    ensures FollowsTheClient(answer, pieces) <==> Fits(answer, [], pieces)
  {
    if Fits(answer, [], pieces) {
      forall more: seq<seq<char>> | Fits(answer, AfterAll(answer, [], pieces), more)
        ensures Verdicts(answer, [], pieces + more) == StreamVerdicts(answer, Joined(pieces + more))
      {
        RunTwice(answer, [], pieces, more);
        CutsDoNotMatter(answer, [], pieces + more);
        assert [] + Joined(pieces + more) == Joined(pieces + more);
      }
    } else {
      var more := LossShows(answer, pieces);
      assert !FollowsTheClient(answer, pieces);
    }
  }

  /** How many verdicts there are after a run and further input that fits, and how many the client expects. */
  lemma Counts(answer: seq<char>, pieces: seq<seq<char>>, more: seq<seq<char>>)
    requires |answer| == ANSWER_LEN && Fits(answer, AfterAll(answer, [], pieces), more)
    ensures |Verdicts(answer, [], pieces + more)| == (|AllKept(answer, [], pieces)| + |Joined(more)|) / ANSWER_LEN
    ensures |StreamVerdicts(answer, Joined(pieces + more))| == (|Joined(pieces)| + |Joined(more)|) / ANSWER_LEN
  {
    hide Verdicts, StreamVerdicts, Fits, AllKept, Joined;
    RunTwice(answer, [], pieces, more);
    VerdictsOfKept(answer, [], pieces + more);
    KeptIff(answer, AfterAll(answer, [], pieces), more);
    assert [] + AllKept(answer, [], pieces + more) == AllKept(answer, [], pieces + more);
  }

  /** After a loss the counts of verdicts differ at once, or as soon as the client believes to have sent the next
      full answer. */
  lemma LossShows(answer: seq<char>, pieces: seq<seq<char>>) returns (more: seq<seq<char>>)
    requires |answer| == ANSWER_LEN && !Fits(answer, [], pieces)
    ensures Fits(answer, AfterAll(answer, [], pieces), more)
    ensures Verdicts(answer, [], pieces + more) != StreamVerdicts(answer, Joined(pieces + more))
  {
    hide Verdicts, StreamVerdicts, AllKept;
    var kept, all := |AllKept(answer, [], pieces)|, |Joined(pieces)|;
    KeptIff(answer, [], pieces);
    if kept / ANSWER_LEN != all / ANSWER_LEN {
      more := [];
      Counts(answer, pieces, more);
    } else {
      PendingLength(answer, [], pieces);
      CountsDiffer(kept, all);
      var last := seq(ANSWER_LEN - all % ANSWER_LEN, _ => 'x');
      more := [last];
      assert Joined(more) == last + [];
      Counts(answer, pieces, more);
    }
  }

  lemma CountsDiffer(kept: nat, all: nat)
    requires kept < all && kept / ANSWER_LEN == all / ANSWER_LEN
    ensures kept % ANSWER_LEN < all % ANSWER_LEN
    ensures var k := ANSWER_LEN - all % ANSWER_LEN;
      kept % ANSWER_LEN + k <= ANSWER_LEN && (kept + k) / ANSWER_LEN < (all + k) / ANSWER_LEN
  {
  }
}
