# random-group-app grouping engine, in Dafny

This project models the core of the random group app, a small web service.
Users register with a registration number and a preferred group size. The
controller then asks for a grouping under a title. The service splits the
registered numbers into groups of the most popular size, and it refuses any
grouping that puts two people together who were already together in an
earlier round. The history of such pairs is a stored log of pair records
(`past_pairs`).

The model covers:
- the `make_groups` handler: its request checks, size choice, canonical pair
  key, chunk validity test, the shuffle–slice–retry loop, pair recording,
  member labelling, and the replacement of the title's stored groups;
- the `get_groups` listing, which regroups the stored group documents by
  title;
- the registration toggle.

The stores (users, pair log, group documents, settings) are plain values.
Each operation takes them and returns the new ones. `random.shuffle` becomes
a supplied sequence `shuffles` of permutations:
- `shuffles[0]` is the shuffle made before the loop;
- `shuffles[t]` is the permutation after the t-th restart.

The loop as written has no bound on its attempts. The model runs at most
`|shuffles|` attempts and reports `Unsatisfiable` once they run out.

Modules:
- `Pairs`: the canonical key and the history snapshot.
- `Slicing`: the chunking, the validity test and the per-chunk records.
- `Engine`: the attempt loop and its specification `Outcome`.
- `GroupSize`: the size choice.
- `Listing`: the group documents and the listing by title.
- `Service`: the request handler.
- `Registration`: the toggle.
- `AsWritten`: the control state of the unbounded loop, with Python slice semantics, used for the
  findings.

## Model

| member | source | states |
|---|---|---|
| Pairs.Key | main.py:102 | the stored key of a pair is the pair itself or its swap |
| Pairs.KeySorted | main.py:102 | the key is in ascending code-point order, as `sorted` on two strings leaves it |
| Pairs.KeySymmetric | main.py:108 | `(a, b)` and `(b, a)` give the same key |
| Pairs.KeyIdentifiesPair | main.py:102 | two keys are equal exactly when they come from the same unordered pair |
| Pairs.LessIsStrictTotal | main.py:102 | the string order used by `sorted` is asymmetric and total on distinct ids |
| Pairs.SnapshotEitherOrder | main.py:101-102 | a logged pair is known to the snapshot in both orders |
| Pairs.SnapshotAppend | main.py:101-102 | the snapshot of a concatenated log is the union of the parts' snapshots |
| Pairs.RecordingKnownPairIsNoOp | main.py:117 | logging a pair that is already known leaves the snapshot unchanged |
| Slicing.ShortChunkValid | main.py:108 | a chunk of zero or one member is always valid |
| Slicing.ValidChunkMembersUnpaired | main.py:108 | in a valid chunk no two distinct members form a known pair |
| Slicing.ValidIffMembersUnpaired | main.py:108 | on a duplicate-free chunk, validity holds exactly when no two distinct members are a known pair |
| Slicing.ChunkPairsCount | main.py:115-117 | a chunk of n members writes exactly n·(n-1)/2 records |
| Slicing.ChunkPairsMembership | main.py:115-117 | a record is written exactly when it is (group[j], group[k]) for some j < k |
| Slicing.ValidIffPairsUnknown | main.py:108 | a chunk is valid exactly when none of its own records is already in the snapshot |
| Slicing.ChunksCover | main.py:106-107 | concatenating the chunks of a permutation gives back the permutation |
| Slicing.ChunkLengths | main.py:107 | every chunk but the last has `size` members, and the last has 1 to `size` |
| Slicing.AllPairsStayInside | main.py:115-117 | every record written names two members of the accepted chunks |
| Slicing.EarlierChunksNeverConflict | main.py:102 | records written earlier in the same attempt cannot affect a later chunk of that attempt |
| Engine.LeadingValid | main.py:106-109 | the chunks an attempt keeps are a valid prefix of its chunks that stops at the first invalid chunk |
| Engine.OutcomeIsFirstAccepted | main.py:104-122 | the result is the chunking of the first permutation whose chunks are all valid; it is `Unsatisfied` exactly when no permutation is |
| Engine.AppendChunkPairs | main.py:115-117 | the nested loops append exactly the chunk's j<k records, in j-then-k order |
| Engine.RunAttempt | main.py:106-122 | one pass over a permutation: it accepts exactly when all chunks are valid, returns the chunks on acceptance, and appends the records of the valid chunks before the first invalid one |
| Engine.FormGroups | main.py:104-122 | the result is `Outcome`, and the records appended are those of every attempt up to and including the accepted one |
| Engine.FormedGroupsPartitionRoster | main.py:98-122 | on acceptance every registered number is in exactly one group, the groups are well sized, and no group holds a pair known before the loop |
| Engine.FormedPairsRecorded | main.py:115-117 | after acceptance the log pairs every two members of every group, so a later round cannot repeat them |
| Engine.FullyPairedRosterUnsatisfiable | main.py:106-122 | when every two registered numbers are already paired and size ≥ 2, no permutation is accepted |
| Engine.SizeOneAlwaysFormed | main.py:107-108 | with size 1 the first permutation is accepted |
| Engine.SingleParticipantFormed | main.py:106-108 | a lone participant forms one group of one, whatever the size |
| Engine.LogBeforePrefix | main.py:115-122 | the log of the first attempts is a prefix of the log of more attempts, and each attempt's records follow those of the attempts before it |
| Engine.EarlierAttemptRefused | main.py:119-122 | every attempt before the accepted one was refused |
| Engine.RefusedAttemptsStayLogged | main.py:115-122 | the records each refused attempt wrote before its restart stay in the log the accepted round returns, as one contiguous block in attempt order |
| Engine.AbandonedAttemptStaysRecorded | main.py:115-122 | in the scenario A, B, C, D with size 2 and (C, D) already known, the permutation A, C, B, D is accepted second, and the record (A, B) from the refused first attempt precedes its records in the log |
| GroupSize.MostFrequent | main.py:96 | the result is a candidate whose count no other candidate exceeds |
| GroupSize.ChosenSize | main.py:95-96 | the size is a most frequent preference when there are preferences, and the requested size otherwise |
| GroupSize.StrictModeIsChosen | main.py:96 | a strict majority preference is the size chosen |
| GroupSize.RequestedSizeIgnored | main.py:92-96 | once anyone is registered, the requested size makes no difference |
| GroupSize.ChosenSizeExample | main.py:96 | preferences 3, 2, 2 choose 2, and no preferences choose the requested size |
| Listing.GetGroups | main.py:139-146 | the result is one entry per title in first-appearance order, each holding that title's member lists in stream order |
| Listing.AbsentTitleHasNoMembers | main.py:145-146 | a title has member lists exactly when it is listed |
| Listing.TitlesDistinct | main.py:142-146 | each title is listed once |
| Listing.TitleListedIff | main.py:143-146 | a title is listed exactly when some document carries it |
| Listing.TitlesPrefixStable | main.py:145-146 | the titles of any prefix of the stream are a prefix of the listed titles, so titles are in first-appearance order |
| Listing.MembersUnderAppend | main.py:145 | a title's member lists over a concatenated stream are those of each part, in order |
| Listing.ListingCountsEveryDoc | main.py:141-146 | the listing holds as many member lists as there are documents |
| Listing.Without | main.py:125-127 | the kept documents are exactly those not titled with the request's title |
| Listing.DeleteTitle | main.py:125-127 | the deletion loop removes exactly the request title's documents and keeps the rest in order |
| Listing.AddGroups | main.py:129-134 | the loop appends one document per group under the title, numbered 1, 2, … |
| Listing.ReplacingATitle | main.py:124-134 | afterwards the title lists exactly the new groups, and every other title keeps its lists |
| Service.NameOfRegistered | main.py:112 | with unique registration numbers, looking up a user's number yields that user's name |
| Service.RenderGroup | main.py:110-113 | each member is labelled `name (reg_no)`, in member order |
| Service.RenderGroups | main.py:110-114 | every accepted group is labelled, in group order |
| Service.ShownLabelsRegisteredName | main.py:112-113 | a registered member's label carries the name that user registered |
| Service.MakeGroups | main.py:86-136 | an empty title, no users and a non-positive size are refused with both stores unchanged; otherwise the reply, log and group documents are exactly those of the first accepted attempt, and running out of attempts keeps the group documents and logs every attempt |
| Service.AcceptedRequest | main.py:86-136 | for the outcome an accepted request replies with, when the shuffles are permutations of the registration numbers: the groups partition the registered users, no group holds a pair the history knew, the returned log pairs every two members of every group, and the stored documents list exactly the reply's groups under the title while other titles keep their lists |
| Registration.Initialized | main.py:35-36 | an unset switch starts open; a set one is kept |
| Registration.Toggled | main.py:79 | the stored value is "0" or "1", and openness flips |
| Registration.ToggleRegistration | main.py:77-82 | openness flips, and the message reports the new state |
| Registration.ToggleTwiceRestores | main.py:79 | toggling a stored "0" or "1" twice restores it |
| Registration.ToggleTwiceRestoresOpenness | main.py:79 | toggling twice restores openness whatever was stored |
| Registration.UnrecognisedValueToggleOpens | main.py:79 | any value other than "1", including none, toggles to open |
| AsWritten.SliceBound | main.py:107 | a Python slice bound in range is kept, a negative one counts from the end, and one above the length or below minus the length is clamped to the length or to 0 |
| AsWritten.NonPositiveSizeNeverExits | main.py:106-122 | with size ≤ 0 and anyone registered, the loop guard still holds after any number of passes |
| AsWritten.ZeroSizeExample | main.py:106-118 | with size 0, each pass appends an empty group and `i` stays 0 |
| AsWritten.FirstSliceRefused | main.py:107-108 | when every pair is known, the first slice of any permutation is refused |
| AsWritten.FullyPairedNeverExits | main.py:106-122 | when every pair is known and size ≥ 2, every pass restarts, so the loop never exits and keeps no group |

## Left out

- Firestore I/O. This includes client set-up, `get_setting`/`set_setting`, and the stream/add/delete calls. The stores are in-memory sequences, passed in and returned.
- Firestore stream order is modelled as sequence order. Added documents are appended at the end. Document ids, and the ordering Firestore derives from them, are not modelled.
- Uniqueness of registration numbers is the precondition `Distinct(RegNos(users))`, which the theorems need. In the source it holds because the numbers are document ids.
- HTTP routing, status codes and the HTML page. The request checks become the `Failure` values `TitleRequired` and `NoUsers`.
- `random.shuffle` is nondeterministic. It is replaced by the supplied `shuffles`. The theorems assume each of those is a permutation of the registration numbers, because `random.shuffle` guarantees that.
- Engine.FormGroups: runs at most `|shuffles|` attempts. The source loop has no bound. Exhausting the attempts gives `Unsatisfiable`, which the source never reports (see Findings).
- Engine.FormGroups: works on registration numbers. The labels `name (reg_no)` are built afterwards by `Service.RenderGroups`, for the accepted groups only. The source labels each valid chunk as soon as it is accepted, but a restart discards those labels, so the reply is the same.
- Engine.RunAttempt: the source runs one loop across restarts. The model splits it into one pass per permutation and a loop over the attempts, with the same accepted groups and the same log.
- Service.NameOf: returns "" for a number with no user, where the source would fail on a missing document. This case cannot arise, because every member is a registered number.
- GroupSize.MostFrequent: among equally frequent sizes, it picks the first in the order of registered users. The source's choice depends on set iteration order. No contract states any tie-break.
- The CRUD routes `register_user`, `list_users` and `delete_user` are database upserts and deletes with hard-coded controller checks. They are not part of this model.
- The log `past_pairs` is read once into the snapshot `used` before the loop. Records written during the loop never change `used`. This is as in the source, and `used` is a fixed parameter of `Engine`.

## Findings

| source | as written | input that shows it | evidently intended | confidence | as-written member | corrected member |
|---|---|---|---|---|---|---|
| main.py:95-118 | a preferred size of 0 or less is accepted. The slice is then empty or counts from the end, `i` never becomes positive, and the loop never exits | one registered user whose `group_size` is 0: each pass appends an empty group and `i` stays 0 | refuse a non-positive group size | not executed; high | AsWritten.NonPositiveSizeNeverExits | Service.MakeGroups |
| main.py:104-122 | the loop has no attempt bound. Once the history pairs everyone, every permutation is refused and the loop reshuffles forever | two users A and B with `group_size` 2, after one round has recorded (A, B) | give up and report that no grouping avoids the history | not executed; high | AsWritten.FullyPairedNeverExits | Engine.FormGroups |
