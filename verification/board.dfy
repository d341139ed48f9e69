/** The component's state and the events that change it: the mount effect,
    the completions of the two remote calls, typing into the handle field and
    submitting the form. Remote calls and browser storage are not performed
    here: a call's outcome is a parameter (`None` when the promise rejects),
    and storage is the single slot `stored`, the value kept under the key
    `codeforcesHandle`. */
module Board {
  import opened Wrappers
  import opened Text
  import opened Contests
  import opened Submissions

  datatype State = State(
    contests: seq<Contest>,  // the displayed contest list
    handle: string,          // the text of the handle field
    stored: Option<string>,  // the persisted handle, if any
    solved: SolvedSet        // the solved set of the last successful refresh
  )

  /** What every reachable state satisfies: the list is a displayable one and
      the solved set holds only `true` values under well-formed problem keys. */
  predicate Valid(st: State) {
    && |st.contests| <= DisplayLimit
    && (forall i :: 0 <= i < |st.contests| ==> IsDiv2(st.contests[i]))
    && (forall k :: k in st.solved ==> st.solved[k] && DecodeKey(k).Some?)
  }

  /** The initial `useState` values; storage holds what an earlier session left. */
  function Fresh(stored: Option<string>): (r: State)
    ensures Valid(r)
    ensures forall c, i :: IsProblemSolved(r.solved, c, i) == None
  {
    State([], "", stored, map[])
  }

  /** The keys of any solved set built by a refresh decode. */
  lemma BuildSolvedDecodable(subs: seq<Submission>)
    ensures forall k :: k in BuildSolved(subs) ==> DecodeKey(k).Some?
  {
    forall k | k in BuildSolved(subs) ensures DecodeKey(k).Some? {
      var s :| s in subs && Accepted(s) && ProblemKey(s.problem) == k;
      KeyRoundTrip(s.problem.contestId, s.problem.index);
    }
  }

  /** Completion of the contest-list call: on success the displayed list is
      replaced by the filtered, truncated catalog; on failure nothing changes. */
  function ContestsLoaded(st: State, catalog: Option<seq<Contest>>): (r: State)
    ensures r.handle == st.handle && r.stored == st.stored && r.solved == st.solved
    ensures catalog.None? ==> r.contests == st.contests
    ensures catalog.Some? ==> r.contests == DisplayedContests(catalog.value)
    ensures catalog.Some? ==> forall c :: c in r.contests ==> c in catalog.value && IsDiv2(c)
    ensures Valid(st) ==> Valid(r)
  {
    match catalog
    case None => st
    case Some(cs) => st.(contests := DisplayedContests(cs))
  }

  /** Completion of the submission-history call: on success the solved set is
      replaced outright by the one built from the feed, so no key of an earlier
      set survives unless the new feed accepts it again; on failure nothing
      changes. */
  function SubmissionsLoaded(st: State, feed: Option<seq<Submission>>): (r: State)
    ensures r.contests == st.contests && r.handle == st.handle && r.stored == st.stored
    ensures feed.None? ==> r.solved == st.solved
    ensures feed.Some? ==> r.solved.Keys == AcceptedKeys(feed.value)
    ensures Valid(st) ==> Valid(r)
  {
    match feed
    case None => st
    case Some(subs) =>
      BuildSolvedDecodable(subs);
      st.(solved := BuildSolved(subs))
  }

  /** The mount effect followed by the completion of the submission fetch it
      starts: a truthy stored handle (present and non-empty) fills the field
      and is refreshed with `feed`, the response for that handle; otherwise
      no fetch is made and the state stays fresh. */
  function Startup(stored: Option<string>, feed: Option<seq<Submission>>): (r: State)
    ensures Valid(r) && r.stored == stored && r.contests == []
    ensures stored.Some? && stored.value != "" ==> r.handle == stored.value
    ensures stored.Some? && stored.value != "" ==>
              r.solved == (if feed.Some? then BuildSolved(feed.value) else map[])
    ensures !(stored.Some? && stored.value != "") ==> r == Fresh(stored)
  {
    var st := Fresh(stored);
    if stored.Some? && stored.value != "" then SubmissionsLoaded(st.(handle := stored.value), feed)
    else st
  }

  /** Typing into the handle field: only the field changes; nothing is stored. */
  function Edit(st: State, text: string): (r: State)
    ensures r.handle == text
    ensures r.contests == st.contests && r.stored == st.stored && r.solved == st.solved
    ensures Valid(st) ==> Valid(r)
  {
    st.(handle := text)
  }

  /** Submitting the form. A handle that is empty after trimming is ignored.
      Otherwise the untrimmed handle is stored verbatim, and then the solved
      set is refreshed with `feed`, the response for that handle; when the
      call fails the handle stays stored and the old solved set stays. */
  function Submit(st: State, feed: Option<seq<Submission>>): (r: State)
    ensures Blank(st.handle) ==> r == st
    ensures !Blank(st.handle) ==>
              && r.handle == st.handle
              && r.stored == Some(st.handle)
              && r.contests == st.contests
              && (feed.None? ==> r.solved == st.solved)
              && (feed.Some? ==> r.solved.Keys == AcceptedKeys(feed.value))
    ensures Valid(st) ==> Valid(r)
  {
    var ignored := Trim(st.handle) == "";
    TrimEmptyIffBlank(st.handle);
    if ignored then st
    else
      var persisted := st.(stored := Some(st.handle));
      assert Valid(st) ==> Valid(persisted);
      SubmissionsLoaded(persisted, feed)
  }

  /** After a successful submit, the table marks a cell solved exactly when
      the new feed holds an accepted submission for it, whatever the solved
      set held before. */
  lemma SubmitMarksExactlyAccepted(st: State, subs: seq<Submission>, contestId: int, index: string)
    requires !Blank(st.handle)
    ensures (IsProblemSolved(Submit(st, Some(subs)).solved, contestId, index) == Some(true))
        <==> (exists s :: s in subs && Accepted(s) && s.problem == Problem(Some(contestId), index))
  {
    TrimEmptyIffBlank(st.handle);
    SolvedIffAccepted(subs, contestId, index);
  }

  /** A submitted handle survives a reload: a later mount reads it back into
      the field and refreshes the solved set for it. */
  lemma SubmittedHandleReloads(st: State, feed: Option<seq<Submission>>, later: seq<Submission>)
    requires !Blank(st.handle)
    ensures Startup(Submit(st, feed).stored, Some(later)).handle == st.handle
    ensures Startup(Submit(st, feed).stored, Some(later)).solved == BuildSolved(later)
  {
  }

  /** The two fetches of the mount effect write disjoint parts of the state, so
      their completions may arrive in either order with the same result. */
  lemma LoadsCommute(st: State, catalog: Option<seq<Contest>>, feed: Option<seq<Submission>>)
    ensures ContestsLoaded(SubmissionsLoaded(st, feed), catalog)
         == SubmissionsLoaded(ContestsLoaded(st, catalog), feed)
  {
  }
}
