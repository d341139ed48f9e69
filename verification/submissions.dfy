/** The solved-problem index: the submission history of a handle folded into a
    plain object keyed by `contestId-index`, and the lookup the table cells use. */
module Submissions {
  import opened Wrappers
  import opened Text

  /** The problem a submission was made to. The platform omits `contestId`
      for problems outside any contest; the template string then renders it
      as `undefined`. */
  datatype Problem = Problem(contestId: Option<int>, index: string)

  /** A submission; `verdict` is absent while the submission is being judged. */
  datatype Submission = Submission(verdict: Option<string>, problem: Problem)

  /** The verdict of an accepted solution. */
  const AcceptedVerdict: string := "OK"

  /** How a template string renders a missing value. */
  const UndefinedText: string := "undefined"

  /** The solved set: a plain object from problem key to `true`. */
  type SolvedSet = map<string, bool>

  predicate Accepted(s: Submission) {
    s.verdict == Some(AcceptedVerdict)
  }

  /** `${contestId}` inside the key template. */
  function ContestIdText(contestId: Option<int>): (r: string)
    ensures |r| > 0
  {
    match contestId
    case Some(n) => IntToString(n)
    case None => UndefinedText
  }

  /** The composite key `${contestId}-${index}`, used both when the solved set
      is built and when it is queried. */
  function Key(contestId: Option<int>, index: string): (r: string)
    ensures |r| > |index| + 1
    ensures r[|r| - |index|..] == index && r[|r| - |index| - 1] == '-'
  {
    ContestIdText(contestId) + "-" + index
  }

  /** Reads `digits-rest` back as the number and `rest`. */
  function SplitNumber(body: string): Option<(nat, string)> {
    var n := DigitRun(body);
    if n == 0 || n == |body| || body[n] != '-' then None
    else Some((DecimalValue(body[..n]), body[n + 1..]))
  }

  predicate HasUndefinedPrefix(k: string) {
    var undef := UndefinedText + "-";
    |undef| <= |k| && k[..|undef|] == undef
  }

  /** Splits a key back into its contest id and problem index: `undefined-`
      starts a key without a contest id; otherwise an optional minus sign,
      a run of digits and a `-` precede the index. */
  function DecodeKey(k: string): Option<(Option<int>, string)> {
    if HasUndefinedPrefix(k) then
      Some((None, k[|UndefinedText| + 1..]))
    else
      var negative := |k| > 0 && k[0] == '-';
      match SplitNumber(if negative then k[1..] else k)
      case None => None
      case Some((v, index)) => Some((Some(if negative then -(v as int) else v), index))
  }

  /** The numeral of `m`, a `-` and an index split back into `m` and the index. */
  lemma SplitNumberRoundTrip(m: nat, index: string)
    ensures SplitNumber(NatToDecimal(m) + "-" + index) == Some((m, index))
  {
    var digits := NatToDecimal(m);
    var body := digits + "-" + index;
    assert body[|digits|] == '-';
    assert body[..|digits|] == digits;
    assert body[|digits| + 1..] == index;
    DecimalRoundTrip(m);
  }

  /** A key that starts with a minus sign or a digit is not an `undefined-` key. */
  lemma NumericStartNotUndefined(k: string)
    requires |k| > 0 && (k[0] == '-' || IsDigit(k[0]))
    ensures !HasUndefinedPrefix(k)
  {
  }

  /** A key with a negative contest id decodes to that id and its index. */
  lemma NegativeKeyRoundTrip(m: nat, index: string)
    requires m > 0
    ensures DecodeKey("-" + NatToDecimal(m) + "-" + index) == Some((Some(-(m as int)), index))
  {
    var k := "-" + NatToDecimal(m) + "-" + index;
    NumericStartNotUndefined(k);
    assert k[1..] == NatToDecimal(m) + "-" + index;
    SplitNumberRoundTrip(m, index);
  }

  /** A key with a non-negative contest id decodes to that id and its index. */
  lemma NonNegativeKeyRoundTrip(m: nat, index: string)
    ensures DecodeKey(NatToDecimal(m) + "-" + index) == Some((Some(m), index))
  {
    var k := NatToDecimal(m) + "-" + index;
    assert k[0] == NatToDecimal(m)[0];
    NumericStartNotUndefined(k);
    SplitNumberRoundTrip(m, index);
  }

  /** A numeric key decodes to its contest id and index. */
  lemma NumericKeyRoundTrip(c: int, index: string)
    ensures DecodeKey(Key(Some(c), index)) == Some((Some(c), index))
  {
    if c < 0 {
      NegativeKeyRoundTrip(-c, index);
    } else {
      NonNegativeKeyRoundTrip(c, index);
    }
  }

  /** Every key decodes back to the contest id and index it was built from. */
  lemma KeyRoundTrip(contestId: Option<int>, index: string)
    ensures DecodeKey(Key(contestId, index)) == Some((contestId, index))
  {
    match contestId
    case None =>
      var k := Key(contestId, index);
      assert HasUndefinedPrefix(k);
      assert k[|UndefinedText| + 1..] == index;
    case Some(c) =>
      NumericKeyRoundTrip(c, index);
  }

  /** Distinct problems never share a key, so looking a problem up by its
      string key is the same as looking it up by the pair. */
  lemma KeyInjective(c1: Option<int>, i1: string, c2: Option<int>, i2: string)
    ensures Key(c1, i1) == Key(c2, i2) <==> c1 == c2 && i1 == i2
  {
    KeyRoundTrip(c1, i1);
    KeyRoundTrip(c2, i2);
  }

  function ProblemKey(p: Problem): string {
    Key(p.contestId, p.index)
  }

  /** One step of the `forEach`: an accepted submission sets its key to
      `true`; any other submission leaves the object as it was. */
  function Record(acc: SolvedSet, s: Submission): (r: SolvedSet)
    ensures r.Keys == acc.Keys + (if Accepted(s) then {ProblemKey(s.problem)} else {})
    ensures forall k :: k in r ==> r[k] == ((Accepted(s) && k == ProblemKey(s.problem)) || acc[k])
  {
    if Accepted(s) then acc[ProblemKey(s.problem) := true] else acc
  }

  /** The keys of the accepted submissions of a feed, defined without
      reference to the fold. */
  ghost function AcceptedKeys(subs: seq<Submission>): set<string> {
    set s | s in subs && Accepted(s) :: ProblemKey(s.problem)
  }

  /** A solved set holding exactly `keys`, every one mapped to `true`. */
  function AllTrue(keys: set<string>): SolvedSet {
    map k | k in keys :: true
  }

  /** The `forEach` over the feed, in feed order, starting from `acc`: the
      result adds to `acc` exactly the keys of the accepted submissions. */
  function SolvedFold(acc: SolvedSet, subs: seq<Submission>): (r: SolvedSet)
    ensures r.Keys == acc.Keys + AcceptedKeys(subs)
    ensures forall k :: k in r ==> r[k] == (k in AcceptedKeys(subs) || acc[k])
    decreases |subs|
  {
    if |subs| == 0 then
      assert AcceptedKeys(subs) == {};
      acc
    else
      AcceptedKeysCons(subs);
      var next := Record(acc, subs[0]);
      SolvedFold(next, subs[1..])
  }

  lemma AcceptedKeysCons(subs: seq<Submission>)
    requires |subs| > 0
    ensures AcceptedKeys(subs) ==
              (if Accepted(subs[0]) then {ProblemKey(subs[0].problem)} else {}) + AcceptedKeys(subs[1..])
  {
  }

  /** The solved set of one refresh: the fold starts from a fresh empty
      object, so it holds the keys of the accepted submissions and nothing
      else, each mapped to `true`. */
  function BuildSolved(subs: seq<Submission>): (r: SolvedSet)
    ensures r == AllTrue(AcceptedKeys(subs))
  {
    SolvedFold(map[], subs)
  }

  /** `isProblemSolved`: the value stored under the key, or `undefined`
      (None) when the key is absent. */
  function IsProblemSolved(solved: SolvedSet, contestId: int, index: string): (r: Option<bool>)
    ensures r == None <==> Key(Some(contestId), index) !in solved
    ensures (forall k :: k in solved ==> solved[k]) ==> r != Some(false)
  {
    var k := Key(Some(contestId), index);
    if k in solved then Some(solved[k]) else None
  }

  /** A cell is marked solved exactly when the feed holds an accepted
      submission for that contest and index; otherwise the lookup yields
      `undefined`, never `false`. */
  lemma SolvedIffAccepted(subs: seq<Submission>, contestId: int, index: string)
    ensures IsProblemSolved(BuildSolved(subs), contestId, index) ==
              if exists s :: s in subs && Accepted(s) && s.problem == Problem(Some(contestId), index)
              then Some(true) else None
  {
    var k := Key(Some(contestId), index);
    var solved := BuildSolved(subs);
    if k in solved {
      var s :| s in subs && Accepted(s) && ProblemKey(s.problem) == k;
      KeyInjective(s.problem.contestId, s.problem.index, Some(contestId), index);
    }
  }

  /** Every lookup in an empty solved set yields `undefined`. */
  lemma EmptyLookup(contestId: int, index: string)
    ensures IsProblemSolved(map[], contestId, index) == None
  {
  }

  /** A submission that is not accepted adds nothing, wherever it appears. */
  lemma RejectedIgnored(a: seq<Submission>, s: Submission, b: seq<Submission>)
    requires !Accepted(s)
    ensures BuildSolved(a + [s] + b) == BuildSolved(a + b)
  {
    assert AcceptedKeys(a + [s] + b) == AcceptedKeys(a + b) by {
      assert forall x :: x in a + [s] + b <==> x in a || x == s || x in b;
      assert forall x :: x in a + b <==> x in a || x in b;
    }
  }

  /** The solved set depends only on which submissions occur, not on their
      order or multiplicity: reordering the feed or repeating an accepted
      submission gives the same set. */
  lemma SameSubmissionsSameSet(a: seq<Submission>, b: seq<Submission>)
    requires forall s :: s in a <==> s in b
    ensures BuildSolved(a) == BuildSolved(b)
  {
  }

  /** Folding an accepted submission twice is the same as folding it once. */
  lemma RecordIdempotent(acc: SolvedSet, s: Submission)
    ensures Record(Record(acc, s), s) == Record(acc, s)
  {
  }

  /** One accepted and one rejected submission: only the accepted problem's
      key is set, and only its cell is marked. */
  lemma MixedFeedExample()
    ensures var feed := [Submission(Some("OK"), Problem(Some(1), "A")),
                         Submission(Some("WRONG_ANSWER"), Problem(Some(1), "B"))];
            && BuildSolved(feed) == map["1-A" := true]
            && IsProblemSolved(BuildSolved(feed), 1, "A") == Some(true)
            && IsProblemSolved(BuildSolved(feed), 1, "B") == None
  {
    var ok := Submission(Some("OK"), Problem(Some(1), "A"));
    var wa := Submission(Some("WRONG_ANSWER"), Problem(Some(1), "B"));
    var feed := [ok, wa];
    assert Key(Some(1), "A") == "1-A";
    assert AcceptedKeys(feed) == {"1-A"} by {
      assert forall s :: s in feed <==> s == ok || s == wa;
      assert !Accepted(wa);
    }
    SolvedIffAccepted(feed, 1, "B");
  }
}
