/**
 * `query_yes_no`: ask a yes/no question and read replies until one is
 * recognised. The operator's replies are given as a sequence; reply `k` is
 * what the k-th call to `input()` returns.
 */
module YesNo {
  import opened Wrappers
  import opened Text

  /** The `valid` table: recognised (lower-cased) replies and their meaning. */
  const ValidAnswers: map<string, bool> :=
    map["yes" := true, "y" := true, "ye" := true, "no" := false, "n" := false]

  /** Outcome of one question. */
  datatype Reply =
    | Answered(value: bool, consumed: nat)  // returned after reading reply number `consumed`
    | InvalidDefault                        // ValueError: the default is not None, "yes" or "no"
    | OutOfReplies                          // no reply was recognised before input ran out

  /** The defaults the function accepts: None, "yes" or "no". */
  predicate KnownDefault(default: Option<string>)
  {
    default == None || default == Some("yes") || default == Some("no")
  }

  /**
   * What one lower-cased reply decides: with a default, the empty reply means
   * the default; a reply in the table means its entry; anything else decides
   * nothing and the question is asked again.
   */
  function Decide(default: Option<string>, choice: string): (r: Option<bool>)
    requires KnownDefault(default)
    ensures r.Some? <==> (default.Some? && choice == "") || choice in ValidAnswers
    ensures r == Some(true) <==>
              choice == "yes" || choice == "y" || choice == "ye" || (choice == "" && default == Some("yes"))
    ensures r == Some(false) <==>
              choice == "no" || choice == "n" || (choice == "" && default == Some("no"))
  {
    if default.Some? && choice == "" then Some(ValidAnswers[default.value])
    else if choice in ValidAnswers then Some(ValidAnswers[choice])
    else None
  }

  /** Reference definition: the answer given by the replies from index `k` on. */
  function AnswerFrom(default: Option<string>, replies: seq<string>, k: nat): Reply
    requires KnownDefault(default)
    decreases |replies| - k
  {
    if k >= |replies| then OutOfReplies
    else match Decide(default, Lower(replies[k]))
      case Some(v) => Answered(v, k)
      case None => AnswerFrom(default, replies, k + 1)
  }

  /** Reference definition of the whole question. */
  function Answer(default: Option<string>, replies: seq<string>): Reply
  {
    if KnownDefault(default) then AnswerFrom(default, replies, 0) else InvalidDefault
  }

  /** `query_yes_no(question, default="yes")` reading its replies from `replies`. */
  method QueryYesNo(replies: seq<string>, default: Option<string> := Some("yes")) returns (r: Reply)
    ensures r == Answer(default, replies)
  {
    if !KnownDefault(default) {
      return InvalidDefault;
    }
    var k := 0;
    while k < |replies|
      invariant k <= |replies|
      invariant AnswerFrom(default, replies, k) == Answer(default, replies)
    {
      var choice := Lower(replies[k]);
      if default.Some? && choice == "" {
        return Answered(ValidAnswers[default.value], k);
      } else if choice in ValidAnswers {
        return Answered(ValidAnswers[choice], k);
      }
      k := k + 1;
    }
    return OutOfReplies;
  }

  /** No reply from `k` up to (excluding) `m` decides anything. */
  ghost predicate UndecidedUntil(default: Option<string>, replies: seq<string>, k: nat, m: nat)
    requires KnownDefault(default)
  {
    forall j :: k <= j < m && j < |replies| ==> Decide(default, Lower(replies[j])).None?
  }

  /**
   * The answer is the meaning of the first reply that decides something, and
   * the question stays open exactly while no reply decides.
   */
  lemma {:induction false} AnswerFromIsFirstDecisive(default: Option<string>, replies: seq<string>, k: nat)
    requires KnownDefault(default)
    ensures forall v: bool, m: nat :: AnswerFrom(default, replies, k) == Answered(v, m) <==>
              k <= m < |replies| && Decide(default, Lower(replies[m])) == Some(v) && UndecidedUntil(default, replies, k, m)
    ensures AnswerFrom(default, replies, k) == OutOfReplies <==> UndecidedUntil(default, replies, k, |replies|)
    ensures AnswerFrom(default, replies, k) != InvalidDefault
    decreases |replies| - k
  {
    if k < |replies| && Decide(default, Lower(replies[k])).None? {
      AnswerFromIsFirstDecisive(default, replies, k + 1);
    }
  }

  /** `Answer` read as a whole: an invalid default fails before any reply is read. */
  lemma AnswerIsFirstDecisive(default: Option<string>, replies: seq<string>)
    ensures Answer(default, replies) == InvalidDefault <==> !KnownDefault(default)
    ensures KnownDefault(default) ==>
              forall v: bool, m: nat :: Answer(default, replies) == Answered(v, m) <==>
                m < |replies| && Decide(default, Lower(replies[m])) == Some(v) && UndecidedUntil(default, replies, 0, m)
    ensures KnownDefault(default) ==>
              (Answer(default, replies) == OutOfReplies <==> UndecidedUntil(default, replies, 0, |replies|))
  {
    if KnownDefault(default) {
      AnswerFromIsFirstDecisive(default, replies, 0);
    }
  }

  /** Replies after the deciding one are never read. */
  lemma {:induction false} LaterRepliesIgnored(default: Option<string>, replies: seq<string>, more: seq<string>, k: nat)
    requires KnownDefault(default)
    requires AnswerFrom(default, replies, k).Answered?
    ensures AnswerFrom(default, replies + more, k) == AnswerFrom(default, replies, k)
    decreases |replies| - k
  {
    assert (replies + more)[k] == replies[k];
    if Decide(default, Lower(replies[k])).None? {
      LaterRepliesIgnored(default, replies, more, k + 1);
    }
  }

  /** Replies are compared after lower-casing: changing the case of any reply changes nothing. */
  lemma {:induction false} CaseIgnored(default: Option<string>, replies: seq<string>, other: seq<string>, k: nat)
    requires KnownDefault(default)
    requires |other| == |replies|
    requires forall j :: 0 <= j < |replies| ==> Lower(other[j]) == Lower(replies[j])
    ensures AnswerFrom(default, other, k) == AnswerFrom(default, replies, k)
    decreases |replies| - k
  {
    if k < |replies| {
      CaseIgnored(default, replies, other, k + 1);
    }
  }
}
