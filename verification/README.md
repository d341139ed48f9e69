# Codeforces Div. 2 contest board — a Dafny model of its data logic

The repository is a single React component, `ContestList`, that shows the
Codeforces "Div. 2" rounds as a table and marks each problem cell A–D solved
when the user whose handle was entered has an accepted submission for it.
Around its network, storage and rendering shell sits a small pure core, which
this project models and proves properties of:

- **Contest filter and truncate** (`Contests`): keep the catalog entries whose
  name contains `"Div. 2"`, in catalog order, and take the first 100.
- **Solved-set fold** (`Submissions`): fold the submission history into a
  fresh plain object that maps `` `${contestId}-${index}` `` to `true` for
  every submission whose verdict is `"OK"`.
- **Solved lookup** (`Submissions.IsProblemSolved`): read the same composite
  key; the result is `true` or `undefined` (modelled as `None`).
- **Submit guard and persistence** (`Board`): a handle that is blank after
  `trim` is ignored; otherwise the untrimmed handle is stored and the solved
  set rebuilt for it. The mount effect and the completions of the two remote
  calls are modelled as transitions on the same state record.

Supporting modules: `Wrappers` (an `Option` type) and `Text` (JavaScript's
`trim` with the exact ECMAScript whitespace set, `includes`, and the decimal
text an integer becomes inside a template string).

The problem key is modelled as the string the code builds. `Submissions.DecodeKey`
parses a key back, and `Submissions.KeyRoundTrip` proves that decoding undoes
encoding for every contest id: negative ids and an absent `contestId` (the
platform omits it for problems outside a contest, and the template then writes
`undefined`). So string keys are injective, and lookup by string agrees with
lookup by the pair (contest id, index). Every key starts with a digit, `-` or
`undefined-`, so a key can never name an inherited property of a plain object
such as `constructor`.

Remote calls are parameters. A call's outcome is `Option<seq<…>>`, where
`None` stands for a rejected promise: the state is left as it was, just as the
component silently leaves it. Browser storage is the one slot `State.stored`.
It holds the value kept under the key `codeforcesHandle`.

The model follows the code in three details that are easy to get wrong:
- the lookup returns `undefined`, not `false`, for an unsolved problem;
- submit stores the handle before the fetch, so a failed fetch leaves the new
  handle stored next to the old solved set;
- the mount effect tests the stored handle for truthiness (present and not
  empty), without trimming it.

## Model

| member | source | states |
|---|---|---|
| Text.Trim | src/ContestList.jsx:44 | `trim` yields the slice `s[i..j]` of the handle obtained by removing only whitespace before `i` and after `j`, and the slice has no whitespace at either end |
| Text.TrimEmptyIffBlank | src/ContestList.jsx:44 | `handle.trim() === ''` holds exactly when every character of the handle is whitespace |
| Text.Includes | src/ContestList.jsx:22 | `includes` never finds a pattern longer than the name and always finds the empty pattern; its exact meaning is given by Text.IncludesIffOccurs |
| Text.IncludesIffOccurs | src/ContestList.jsx:22 | the left-to-right `includes` scan succeeds exactly when the marker occurs at some offset of the name |
| Text.IntToString | src/ContestList.jsx:34 | an interpolated contest id is a non-empty numeral, with a leading minus exactly for negative ids |
| Text.DecimalRoundTrip | src/ContestList.jsx:34 | reading back the numeral written for a contest id gives the id |
| Contests.Div2Only | src/ContestList.jsx:22 | the filter keeps exactly the catalog entries whose name contains "Div. 2", and as many as the catalog holds |
| Contests.SliceFront | src/ContestList.jsx:23 | `slice(0, n)` keeps the first min(length, n) entries |
| Contests.DisplayedContests | src/ContestList.jsx:22-23 | the displayed list has min(#matches, 100) entries, all Div. 2 contests from the catalog, and holds every match when there are at most 100 |
| Contests.Div2OnlyPositions | src/ContestList.jsx:22 | the filter preserves catalog order: entry k comes from the catalog position of the k-th match, at strictly increasing positions |
| Contests.DisplayedAreFirstMatches | src/ContestList.jsx:22-23 | the displayed list is the first min(100, #matches) matches in catalog order |
| Contests.MixedCatalogExample | src/ContestList.jsx:22-23 | a catalog of one Div. 2 round and one Educational round displays only the Div. 2 round |
| Submissions.Key | src/ContestList.jsx:34 | the key ends with `-` followed by the problem index; that the contest id before it can be read back is Submissions.KeyRoundTrip |
| Submissions.KeyRoundTrip | src/ContestList.jsx:34 | decoding the key `${contestId}-${index}` recovers the contest id (present or absent) and the index |
| Submissions.KeyInjective | src/ContestList.jsx:54 | two keys are equal exactly when their contest ids and indices are equal, so the keys written at line 34 and read at line 54 agree |
| Submissions.Record | src/ContestList.jsx:33-35 | one `forEach` step adds the submission's key with value `true` when its verdict is "OK" and otherwise leaves the object as it was |
| Submissions.SolvedFold | src/ContestList.jsx:32-37 | the `forEach` adds to its accumulator exactly the keys of the accepted submissions, each set to `true`, and keeps the other entries |
| Submissions.BuildSolved | src/ContestList.jsx:31-37 | folding from a fresh empty object yields the object that maps exactly the keys of the accepted submissions (a set defined without the fold) to `true` |
| Submissions.IsProblemSolved | src/ContestList.jsx:53-55 | the lookup is `undefined` exactly when the key is absent, and never `false` in a solved set whose values are all `true`; which cells are marked is Submissions.SolvedIffAccepted |
| Submissions.SolvedIffAccepted | src/ContestList.jsx:53-55 | a lookup in the built set is `true` exactly when some submission with verdict "OK" has that contest id and index, and `undefined` otherwise |
| Submissions.EmptyLookup | src/ContestList.jsx:53-55 | every lookup in an empty solved set is `undefined` |
| Submissions.RejectedIgnored | src/ContestList.jsx:33-36 | a submission whose verdict is not "OK" changes nothing, wherever it appears in the feed |
| Submissions.SameSubmissionsSameSet | src/ContestList.jsx:32-36 | the solved set depends only on which submissions occur, not on their order or repetition |
| Submissions.RecordIdempotent | src/ContestList.jsx:35 | recording the same submission twice equals recording it once |
| Submissions.MixedFeedExample | src/ContestList.jsx:31-37 | an OK submission for 1/A and a WRONG_ANSWER for 1/B give the set {"1-A": true}; 1/A looks up `true`, 1/B `undefined` |
| Board.Fresh | src/ContestList.jsx:6-8 | the initial state is valid and every lookup in it is `undefined` |
| Board.BuildSolvedDecodable | src/ContestList.jsx:34 | every key of a rebuilt solved set is a well-formed problem key |
| Board.ContestsLoaded | src/ContestList.jsx:20-24 | a successful catalog load replaces the list with exactly the displayed list of that catalog (the first 100 Div. 2 contests); a failure leaves it; nothing else changes |
| Board.SubmissionsLoaded | src/ContestList.jsx:26-40 | a successful history load replaces the solved set outright with the keys of the new feed's accepted submissions; a failure changes nothing |
| Board.Startup | src/ContestList.jsx:10-18 | a truthy stored handle fills the field and the solved set is rebuilt from the response for it (left empty when the call fails); otherwise the state stays initial |
| Board.Edit | src/ContestList.jsx:64 | typing changes only the handle field and stores nothing |
| Board.Submit | src/ContestList.jsx:42-51 | a blank handle leaves the state unchanged; otherwise the untrimmed handle is stored verbatim and the solved set is replaced by the new feed's, or kept when the fetch fails |
| Board.SubmitMarksExactlyAccepted | src/ContestList.jsx:44-50 | after a successful submit a cell is marked exactly when the new feed accepts that problem, whatever was marked before |
| Board.SubmittedHandleReloads | src/ContestList.jsx:13-16 | a submitted handle is read back by the next mount and its solved set rebuilt |
| Board.LoadsCommute | src/ContestList.jsx:10-18 | the contest load and the history load write disjoint state, so their completion order does not matter |

## Left out

- The `axios.get` calls and the Codeforces endpoints (lines 21 and 27): network I/O. The fetched `result` arrays, or a failure, are parameters.
- `localStorage` itself (lines 13 and 47): browser storage. It is the single `State.stored` slot.
- The React `useState`/`useEffect` plumbing, and the race between the startup fetch and a submit-triggered fetch for the submission history (last-resolved-wins). Each completion is one transition; which completion comes last is the caller's choice.
- JSX rendering, CSS classes and the problem-link URLs (lines 57-111): UI only. The table's use of the lookup is covered by the lookup lemmas.
- Unhandled promise rejections: the code has no error logic. A rejection is modelled only as "the state does not change".
- The form's `preventDefault` (line 43): a browser-event detail.
- Text.IntToString: writes every integer as a plain decimal numeral, while JavaScript switches to exponent notation at magnitude 10^21 and cannot hold integers beyond 2^53 exactly. Contest ids are far below both.
- The code keeps only the handle field's text; there is no separate editing or submitted state. Board.Edit and Board.Submit model exactly that.
