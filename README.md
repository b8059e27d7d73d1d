# Secret Santa draw

This project models the draw of the Secret Santa application:
`giver_receiver_matching`, which takes a group's roster of members and sets
each member's `recipient`, the member they give a gift to. The draw works in
three steps:

1. It copies the roster and shuffles the copy.
2. If the shuffled copy ends with the roster's last member, it rotates the copy
   left by one.
3. It walks the roster as givers. Each giver takes the first remaining entry of
   the working list that is not the giver, and that entry is popped.

The project has three modules.

- `Draw` (draw.dfy) describes the draw on values.
  - It states the steps as functions: `RotateLeft`, `Corrected`, `FirstOther`,
    `Pop`, and `Pairing` for the greedy pass.
  - `Match` is the whole draw. Its outcome is `IndexError` for an empty roster.
  - `WorkingAt` and `PicksUpTo` describe the same pass one turn at a time.
  - The lemmas prove what the draw promises. For two or more distinct members,
    every member gets a recipient, nobody draws themself, and everybody is drawn
    exactly once: the result is a derangement of the roster.
- `Santa` (santa.dfy) is the imperative draw over `GroupMember` objects.
  - The methods mutate a working list and assign the `recipient` field in place.
  - They are proved to set exactly the recipients that `Draw.Match` describes.
- `Scenarios` (scenarios.dfy) holds the four fixed-shuffle cases of the unit
  tests, each proved for any distinct members A, B, C, D.

The shuffle is an input. `shuffled` may be any permutation of the roster, so
every property holds for every outcome of the shuffle.

Members are compared by identity. The source compares them with `==`, which
for database records means equal primary keys. The model assumes that distinct
objects in the roster are distinct database rows. A roster holding the same row
twice is outside the model.

The imperative method requires the roster to have no repeats. The functions in
`Draw` make no such assumption.

The source raises no error of its own when the roster is too small:
- With no members, reading the last element of the empty shuffled list raises
  `IndexError`. `Draw.Match` returns `IndexError` and the method returns false.
- With one member, the scan finds nobody else and the member's recipient is
  left as it was.

Both cases are modelled as the code behaves.

## Model

| member | source | states |
|---|---|---|
| Draw.Receivers | src/secretsanta/santa/utils.py:24 | when every giver was assigned, the list of recipients has one entry per giver and entry k is giver k's recipient |
| Draw.RotateLeft | src/secretsanta/santa/utils.py:18 | `s[1:] + [s[0]]` keeps the length, moves the first entry to the end and shifts every other entry down by one |
| Draw.RotateLeftPermutes | src/secretsanta/santa/utils.py:18 | the rotation is a permutation of the list |
| Draw.Corrected | src/secretsanta/santa/utils.py:17-18 | the working list keeps the shuffled list's length and is either the shuffled list or its left rotation, and it differs from the shuffled list only when the two lists end with the same member |
| Draw.CorrectedPermutes | src/secretsanta/santa/utils.py:17-18 | the tail correction only reorders the shuffled list |
| Draw.CorrectedChangesOnlyOnCollision | src/secretsanta/santa/utils.py:17-18 | for two or more distinct members, the working list differs from the shuffled list exactly when the two lists end with the same member, and it is then the left rotation |
| Draw.CorrectedTailDiffers | src/secretsanta/santa/utils.py:8-9 | after the correction the working list is a permutation of the roster without repeats, and its last member is not the roster's last member |
| Draw.FirstOther | src/secretsanta/santa/utils.py:21-23 | the scan returns the index of an entry other than the giver with only the giver before it, or nothing when every entry is the giver |
| Draw.FirstOtherEarly | src/secretsanta/santa/utils.py:21-27 | over a list without repeats, the scan stops at index 0, or at index 1 when index 0 holds the giver |
| Draw.Pop | src/secretsanta/santa/utils.py:26 | `pop(i)` shortens the list by exactly one |
| Draw.PopRemovesOne | src/secretsanta/santa/utils.py:26 | `pop(i)` removes exactly one occurrence, that of the entry at i |
| Draw.PopKeepsOrder | src/secretsanta/santa/utils.py:26 | `pop(i)` keeps the other entries in order: entries before i stay in place and entries after it move down by one |
| Draw.Pick | src/secretsanta/santa/utils.py:21-24 | a turn never hands the giver themself |
| Draw.Rest | src/secretsanta/santa/utils.py:21-27 | a turn that hands out an entry shortens the working list by one, and a turn that hands out nothing leaves its length unchanged |
| Draw.RestRemovesPick | src/secretsanta/santa/utils.py:21-27 | a turn pops exactly the entry it hands out to the giver, and a turn that hands out nothing leaves the working list unchanged |
| Draw.Pairing | src/secretsanta/santa/utils.py:20-27 | the greedy pass gives one result per giver, and no giver is assigned themself |
| Draw.WorkingAt | src/secretsanta/santa/utils.py:20-27 | before turn k the working list has lost at most one entry per earlier turn |
| Draw.PicksUpTo | src/secretsanta/santa/utils.py:20-27 | the first k turns hand out exactly k results |
| Draw.PairingInTurns | src/secretsanta/santa/utils.py:20-27 | running the first k turns one at a time and then the rest of the pass gives the same recipients and the same leftover list as the whole pass |
| Draw.PairingByTurns | src/secretsanta/santa/utils.py:20-27 | the turn-by-turn loop hands out exactly what the greedy pass describes and leaves the same list |
| Draw.PairingStep | src/secretsanta/santa/utils.py:21-27 | with as many entries as givers, no repeats, and the last entry not the last giver, the first giver finds a candidate, and the same conditions hold for the remaining givers and the popped list |
| Draw.PairingLastGiver | src/secretsanta/santa/utils.py:20-27 | the last giver takes the last entry when it is someone else, and the list ends empty |
| Draw.PairingTaken | src/secretsanta/santa/utils.py:24-27 | a giver who finds a candidate is assigned, in front of what the remaining givers get from the popped list |
| Draw.PairingConserves | src/secretsanta/santa/utils.py:26-27 | what was handed out plus what is left is exactly the starting list, so nobody is handed out twice and the list shrinks by one per assignment |
| Draw.PairingComplete | src/secretsanta/santa/utils.py:20-27 | under the corrected list's conditions every giver gets a recipient and the working list is used up |
| Draw.Match | src/secretsanta/santa/utils.py:14-27 | the draw ends in IndexError exactly when the roster is empty, and otherwise gives one result per member |
| Draw.MatchByTurns | src/secretsanta/santa/utils.py:14-27 | the draw's recipients are what the turns over the corrected list hand out |
| Draw.DrawIsDerangement | src/secretsanta/santa/utils.py:8-12 | for two or more distinct members and any shuffle, every member gets a recipient, the working list ends empty, and the recipients are a permutation of the roster with nobody drawing themself |
| Draw.SingleMemberDrawsNobody | src/secretsanta/santa/utils.py:20-23 | with one member nothing is assigned and the member stays in the working list |
| Draw.AllAssignedIffTwoOrMore | src/secretsanta/santa/utils.py:20-27 | for a roster without repeats, every member gets a recipient exactly when there are at least two members |
| Draw.DistinctByMultiplicity | src/secretsanta/santa/utils.py:14-15 | a list has no repeats exactly when every member occurs in it at most once |
| Draw.PermutationKeepsDistinct | src/secretsanta/santa/utils.py:14-15 | a permutation of a roster without repeats has no repeats |
| Scenarios.TwoMembersSameOrder | tests/santa/test_utils.py:28-33 | [A,B] shuffled to [A,B]: A draws B and B draws A |
| Scenarios.ThreeMembersFirstSame | tests/santa/test_utils.py:34-39 | [A,B,C] shuffled to [A,C,B]: A draws C, B draws A, C draws B |
| Scenarios.FourMembersFirstSame | tests/santa/test_utils.py:40-50 | [A,B,C,D] shuffled to [A,D,C,B]: A draws D, B draws A, C draws B, D draws C |
| Scenarios.ThreeMembersLastSame | tests/santa/test_utils.py:51-56 | [A,B,C] shuffled to [B,A,C]: A draws C, B draws A, C draws B |
| Santa.GroupMember.constructor | src/secretsanta/santa/models.py:64-92 | a new member has no recipient yet |
| Santa.ScanForReceiver | src/secretsanta/santa/utils.py:21-23 | the inner loop stops at the first entry other than the giver, or at the end when there is none |
| Santa.TakeTurn | src/secretsanta/santa/utils.py:21-27 | one giver's turn sets the giver's recipient to the entry the turn hands out, or leaves it unchanged, and pops that entry from the working list |
| Santa.HandOut | src/secretsanta/santa/utils.py:20-27 | after the outer loop every giver's recipient is what its turn handed out, and any giver who got nothing keeps its old recipient |
| Santa.GiverReceiverMatching | src/secretsanta/santa/utils.py:4-27 | the draw fails exactly for an empty roster; otherwise every member's recipient is the one `Draw.Match` gives; for two or more members the recipients form a derangement of the roster; one member keeps their recipient; only the members' `recipient` fields change |

## Left out

- `random.shuffle` is not modelled as randomness. The shuffled order is a parameter that may be any permutation of the roster, so uniformity of the draw is not stated.
- `giver.save()` writes the member to the database. The model treats it as a no-op.
- The Django models beyond `GroupMember.recipient`, and the views, forms, admin and URL routing, are not part of this model. They hold no logic of the draw.
- `Group.completed` reads the wall clock and is not part of this model.
- The draw validates nothing: an empty roster raises `IndexError` and a one-member roster assigns nothing.
- Python's `==` on database records compares primary keys, and the model uses object identity. The model assumes distinct objects in the roster are distinct database rows. A roster holding the same row twice as two objects is outside the model: the source would skip both entries for both givers, while the model would pair them.
- GroupMember: only the `recipient` field is modelled. `user`, `group`, `wishlist` and `joined_at` play no part in the draw.
- Santa.GiverReceiverMatching: the inner loop's `continue` and `break` are written as a scan for the first other entry followed by the assignment and the pop. This is the same control flow. The scan is `Santa.ScanForReceiver`, one turn is `Santa.TakeTurn`, and the outer loop is `Santa.HandOut`.
- Santa.GiverReceiverMatching: the shuffled copy is a sequence value rather than a Python list object. No other code can reach the list, so in-place mutation and value update are indistinguishable.
