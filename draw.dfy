/** The Secret Santa draw of giver_receiver_matching, as functions over values.

    A roster is a sequence of members compared by identity only. The random
    shuffle is an input: any permutation of the roster. The draw then
      1. copies the shuffled roster into a working list and, when it ends with
         the same member as the roster, rotates it left by one;
      2. walks the roster as givers and gives each one the first entry of the
         working list that is not the giver, removing that entry.
 */
module Draw {

  datatype Option<T> = None | Some(value: T)

  /** What the greedy pass leaves behind: the recipient chosen for each giver
      (None when the scan found no candidate) and what is left of the working list. */
  datatype Pairs<T> = Pairs(recipients: seq<Option<T>>, left: seq<T>)

  /** Indexing an empty shuffled list raises IndexError; otherwise the pass completes. */
  datatype Outcome<T> = IndexError | Done(pairs: Pairs<T>)

  /** No member occurs twice. */
  predicate Distinct<T(==)>(s: seq<T>) {
    forall i, j :: 0 <= i < j < |s| ==> s[i] != s[j]
  }

  /** `receivers` is a permutation of `givers` in which nobody gets themself. */
  predicate IsDerangement<T(==)>(givers: seq<T>, receivers: seq<T>) {
    |receivers| == |givers| &&
    multiset(receivers) == multiset(givers) &&
    forall k :: 0 <= k < |givers| ==> receivers[k] != givers[k]
  }

  /** Every giver has a recipient. */
  predicate AllAssigned<T>(recipients: seq<Option<T>>) {
    forall k :: 0 <= k < |recipients| ==> recipients[k].Some?
  }

  /** The recipients that were chosen, in giver order. */
  function Receivers<T>(recipients: seq<Option<T>>): (r: seq<T>)
    ensures |r| <= |recipients|
    ensures AllAssigned(recipients) ==>
              |r| == |recipients| && forall k :: 0 <= k < |r| ==> recipients[k] == Some(r[k])
  {
    if recipients == [] then []
    else (if recipients[0].Some? then [recipients[0].value] else []) + Receivers(recipients[1..])
  }

  // ---------------------------------------------------------------------------
  // Step 2: the tail correction

  /** `s[1:] + [s[0]]`: the first element moves to the end. */
  function RotateLeft<T>(s: seq<T>): (r: seq<T>)
    requires |s| > 0
    ensures |r| == |s| && r[|r| - 1] == s[0]
    ensures forall k :: 0 <= k < |s| - 1 ==> r[k] == s[k + 1]
  {
    s[1..] + [s[0]]
  }

  /** The working list after the tail check: rotated when its last member is the
      roster's last member, the shuffled list unchanged otherwise. */
  function Corrected<T(==)>(members: seq<T>, shuffled: seq<T>): (w: seq<T>)
    requires |members| > 0 && |shuffled| > 0
    ensures |w| == |shuffled| && (w == shuffled || w == RotateLeft(shuffled))
    ensures w != shuffled ==> shuffled[|shuffled| - 1] == members[|members| - 1]
  {
    if shuffled[|shuffled| - 1] == members[|members| - 1] then RotateLeft(shuffled) else shuffled
  }

  // ---------------------------------------------------------------------------
  // Step 3: the greedy pass

  /** Index of the first entry of `w` that is not `giver`, if there is one. */
  function FirstOther<T(==)>(w: seq<T>, giver: T): (r: Option<nat>)
    ensures r.Some? ==>
              r.value < |w| && w[r.value] != giver && forall j :: 0 <= j < r.value ==> w[j] == giver
    ensures r.None? ==> forall j :: 0 <= j < |w| ==> w[j] == giver
  {
    if w == [] then None
    else if w[0] != giver then Some(0)
    else match FirstOther(w[1..], giver)
      case None => None
      case Some(i) => Some(i + 1)
  }

  /** `list.pop(i)`: the list without its entry at `i`, the others keeping their order. */
  function Pop<T>(w: seq<T>, i: nat): (r: seq<T>)
    requires i < |w|
    ensures |r| == |w| - 1
  {
    w[..i] + w[i + 1..]
  }

  /** What one giver's turn hands out: the first entry that is not the giver. */
  function Pick<T(==)>(w: seq<T>, giver: T): (r: Option<T>)
    ensures r.Some? ==> r.value != giver
  {
    match FirstOther(w, giver)
    case None => None
    case Some(i) => Some(w[i])
  }

  /** The working list after one giver's turn: the entry handed out is popped. */
  function Rest<T(==)>(w: seq<T>, giver: T): (r: seq<T>)
    ensures |r| == if Pick(w, giver).Some? then |w| - 1 else |w|
  {
    match FirstOther(w, giver)
    case None => w
    case Some(i) => Pop(w, i)
  }

  /** One pass of the givers over the working list `w`: the first giver takes a
      turn, and the remaining givers continue on what that turn leaves. */
  function Pairing<T(==)>(givers: seq<T>, w: seq<T>): (p: Pairs<T>)
    ensures |p.recipients| == |givers|
    ensures forall k :: 0 <= k < |givers| && p.recipients[k].Some? ==>
              p.recipients[k].value != givers[k]
    decreases |givers|
  {
    if givers == [] then Pairs([], w)
    else
      var rest := Pairing(givers[1..], Rest(w, givers[0]));
      Pairs([Pick(w, givers[0])] + rest.recipients, rest.left)
  }

  /** The working list before turn `k` of the pass, computed turn by turn. */
  function WorkingAt<T(==)>(givers: seq<T>, w: seq<T>, k: nat): (r: seq<T>)
    requires k <= |givers|
    ensures |w| - k <= |r| <= |w|
  {
    if k == 0 then w else Rest(WorkingAt(givers, w, k - 1), givers[k - 1])
  }

  /** What the first `k` turns of the pass hand out, in giver order. */
  function PicksUpTo<T(==)>(givers: seq<T>, w: seq<T>, k: nat): (r: seq<Option<T>>)
    requires k <= |givers|
    ensures |r| == k
  {
    if k == 0 then []
    else PicksUpTo(givers, w, k - 1) + [Pick(WorkingAt(givers, w, k - 1), givers[k - 1])]
  }

  /** The whole draw for a roster and the order the shuffle produced. */
  function Match<T(==)>(members: seq<T>, shuffled: seq<T>): (o: Outcome<T>)
    requires multiset(shuffled) == multiset(members)
    ensures o.IndexError? <==> |members| == 0
    ensures o.Done? ==> |o.pairs.recipients| == |members|
  {
    if |shuffled| == 0 then IndexError
    else Done(Pairing(members, Corrected(members, shuffled)))
  }

  // ---------------------------------------------------------------------------
  // Properties

  /** Rotating moves one entry and keeps every entry: the result is a permutation. */
  lemma RotateLeftPermutes<T>(s: seq<T>)
    requires |s| > 0
    ensures multiset(RotateLeft(s)) == multiset(s)
  {
    assert s == [s[0]] + s[1..];
  }

  /** The correction step only reorders the shuffled list. */
  lemma CorrectedPermutes<T>(members: seq<T>, shuffled: seq<T>)
    requires |members| > 0 && |shuffled| > 0
    ensures multiset(Corrected(members, shuffled)) == multiset(shuffled)
  {
    RotateLeftPermutes(shuffled);
  }

  /** `pop(i)` removes exactly one occurrence, of the entry at `i`. */
  lemma PopRemovesOne<T>(w: seq<T>, i: nat)
    requires i < |w|
    ensures multiset(Pop(w, i)) + multiset{w[i]} == multiset(w)
  {
    assert w == w[..i] + [w[i]] + w[i + 1..];
  }

  /** `pop(i)` keeps the other entries in their order: those before `i` stay
      where they were and those after it move down by one. */
  lemma PopKeepsOrder<T>(w: seq<T>, i: nat)
    requires i < |w|
    ensures forall j :: 0 <= j < |w| - 1 ==> Pop(w, i)[j] == if j < i then w[j] else w[j + 1]
  {
    var l, r := w[..i], w[i + 1..];
    assert Pop(w, i) == l + r;
    forall j | 0 <= j < |w| - 1
      ensures Pop(w, i)[j] == if j < i then w[j] else w[j + 1]
    {
      if j < i {
        assert (l + r)[j] == l[j];
      } else {
        assert (l + r)[j] == r[j - i];
      }
    }
  }

  /** A turn pops exactly the entry it hands out, and a turn that hands out
      nothing leaves the working list as it was. */
  lemma RestRemovesPick<T>(w: seq<T>, giver: T)
    ensures Pick(w, giver).None? ==> Rest(w, giver) == w
    ensures Pick(w, giver).Some? ==>
              multiset(Rest(w, giver)) + multiset{Pick(w, giver).value} == multiset(w)
  {
    if FirstOther(w, giver).Some? {
      PopRemovesOne(w, FirstOther(w, giver).value);
    }
  }

  /** A list has no repeats exactly when every member occurs in it at most once. */
  lemma {:induction false} DistinctByMultiplicity<T>(s: seq<T>)
    ensures Distinct(s) <==> forall x :: multiset(s)[x] <= 1
  {
    if s != [] {
      var t := s[1..];
      assert s == [s[0]] + t;
      DistinctByMultiplicity(t);
      if Distinct(s) {
        forall j | 0 <= j < |t| ensures t[j] != s[0] {
          assert t[j] == s[j + 1];
        }
        assert Distinct(t) by {
          forall i, j | 0 <= i < j < |t| ensures t[i] != t[j] {
            assert t[i] == s[i + 1] && t[j] == s[j + 1];
          }
        }
      }
      if forall x :: multiset(s)[x] <= 1 {
        assert forall x :: multiset(t)[x] <= multiset(s)[x];
        assert multiset(t)[s[0]] == 0;
        forall i, j | 0 <= i < j < |s| ensures s[i] != s[j] {
          if i == 0 {
            assert s[j] == t[j - 1] && s[j] in multiset(t);
          } else {
            assert s[i] == t[i - 1] && s[j] == t[j - 1];
          }
        }
      }
    }
  }

  /** A permutation of a roster without repeats has no repeats either. */
  lemma PermutationKeepsDistinct<T>(a: seq<T>, b: seq<T>)
    requires multiset(a) == multiset(b) && Distinct(a)
    ensures Distinct(b)
  {
    DistinctByMultiplicity(a);
    DistinctByMultiplicity(b);
  }

  /** After the correction the working list is still a permutation of the roster,
      and for two or more distinct members it no longer ends with the roster's
      last member. */
  lemma CorrectedTailDiffers<T>(members: seq<T>, shuffled: seq<T>)
    requires |members| >= 2 && Distinct(members)
    requires multiset(shuffled) == multiset(members)
    ensures |shuffled| == |members|
    ensures var w := Corrected(members, shuffled);
      multiset(w) == multiset(members) && Distinct(w) && w[|w| - 1] != members[|members| - 1]
  {
    assert |shuffled| == |multiset(shuffled)| == |members|;
    PermutationKeepsDistinct(members, shuffled);
    var w := Corrected(members, shuffled);
    CorrectedPermutes(members, shuffled);
    PermutationKeepsDistinct(members, w);
    if shuffled[|shuffled| - 1] == members[|members| - 1] {
      assert w[|w| - 1] == shuffled[0] != shuffled[|shuffled| - 1];
    }
  }

  /** For two or more distinct members the correction changes the shuffled list
      exactly when the tails collide, and then it is the left rotation. */
  lemma CorrectedChangesOnlyOnCollision<T>(members: seq<T>, shuffled: seq<T>)
    requires |members| >= 2 && Distinct(members)
    requires multiset(shuffled) == multiset(members)
    ensures |shuffled| == |members|
    ensures Corrected(members, shuffled) != shuffled <==> shuffled[|shuffled| - 1] == members[|members| - 1]
    ensures Corrected(members, shuffled) != shuffled ==> Corrected(members, shuffled) == RotateLeft(shuffled)
  {
    assert |shuffled| == |multiset(shuffled)| == |members|;
    PermutationKeepsDistinct(members, shuffled);
    if shuffled[|shuffled| - 1] == members[|members| - 1] {
      assert Corrected(members, shuffled)[0] == shuffled[1] != shuffled[0];
    }
  }

  /** Over a list without repeats the scan stops at index 0, or at index 1 when
      index 0 holds the giver. */
  lemma FirstOtherEarly<T>(w: seq<T>, giver: T)
    requires Distinct(w) && |w| >= 2
    ensures FirstOther(w, giver) == if w[0] == giver then Some(1) else Some(0)
  {
  }

  /** One greedy step keeps the hypotheses of PairingComplete for the remaining
      givers: the entry taken is at index 0 or 1, so the last entry survives
      unless only two were left. */
  lemma PairingStep<T>(givers: seq<T>, w: seq<T>)
    requires |givers| == |w| >= 2 && Distinct(givers) && Distinct(w)
    requires w[|w| - 1] != givers[|givers| - 1]
    ensures FirstOther(w, givers[0]).Some?
    ensures var w', givers' := Pop(w, FirstOther(w, givers[0]).value), givers[1..];
      |givers'| == |w'| && Distinct(givers') && Distinct(w') && w'[|w'| - 1] != givers'[|givers'| - 1]
  {
  }

  /** The last giver takes the last entry when it is someone else. */
  lemma PairingLastGiver<T>(givers: seq<T>, w: seq<T>)
    requires |givers| == |w| == 1 && w[0] != givers[0]
    ensures Pairing(givers, w) == Pairs([Some(w[0])], [])
  {
  }

  /** A giver who finds a candidate gets it, in front of what the remaining
      givers get from the shortened list. */
  lemma PairingTaken<T>(givers: seq<T>, w: seq<T>, i: nat)
    requires givers != [] && FirstOther(w, givers[0]) == Some(i)
    requires AllAssigned(Pairing(givers[1..], Pop(w, i)).recipients)
    ensures AllAssigned(Pairing(givers, w).recipients)
    ensures Pairing(givers, w).left == Pairing(givers[1..], Pop(w, i)).left
  {
  }

  /** The first `k` turns, taken one at a time, hand out the first `k`
      recipients of the pass, and the remaining givers continue from the list
      those turns leave. */
  lemma {:induction false} PairingInTurns<T>(givers: seq<T>, w: seq<T>, k: nat)
    requires k <= |givers|
    ensures var p, rest := Pairing(givers, w), Pairing(givers[k..], WorkingAt(givers, w, k));
      p.recipients == PicksUpTo(givers, w, k) + rest.recipients && p.left == rest.left
    decreases k
  {
    if k > 0 {
      PairingInTurns(givers, w, k - 1);
      var wk := WorkingAt(givers, w, k - 1);
      assert givers[k - 1..][0] == givers[k - 1] && givers[k - 1..][1..] == givers[k..];
      var rest := Pairing(givers[k..], WorkingAt(givers, w, k));
      assert Pairing(givers[k - 1..], wk) ==
        Pairs([Pick(wk, givers[k - 1])] + rest.recipients, rest.left);
    }
  }

  /** Turn by turn, the pass hands out exactly what Pairing describes and leaves
      the same list behind. */
  lemma PairingByTurns<T>(givers: seq<T>, w: seq<T>)
    ensures Pairing(givers, w) == Pairs(PicksUpTo(givers, w, |givers|), WorkingAt(givers, w, |givers|))
  {
    PairingInTurns(givers, w, |givers|);
    assert givers[|givers|..] == [];
  }

  /** Each chosen recipient is taken out of the working list at once: what was
      handed out plus what is left is exactly what the pass started with, so no
      entry is handed out twice and the list shrinks by one per assignment. */
  lemma {:induction false} PairingConserves<T>(givers: seq<T>, w: seq<T>)
    ensures var p := Pairing(givers, w);
      multiset(Receivers(p.recipients)) + multiset(p.left) == multiset(w) &&
      |Receivers(p.recipients)| + |p.left| == |w|
    decreases |givers|
  {
    if givers != [] {
      match FirstOther(w, givers[0])
      case None =>
        PairingConserves(givers[1..], w);
        var rest := Pairing(givers[1..], w);
        assert Receivers([None] + rest.recipients) == Receivers(rest.recipients);
      case Some(i) =>
        PairingConserves(givers[1..], Pop(w, i));
        PopRemovesOne(w, i);
        var rest := Pairing(givers[1..], Pop(w, i));
        assert Receivers([Some(w[i])] + rest.recipients) == [w[i]] + Receivers(rest.recipients);
    }
  }

  /** When there are as many entries left as givers, no repeats on either side,
      and the last entry is not the last giver, every giver gets a recipient and
      the working list is used up. */
  lemma {:induction false} PairingComplete<T>(givers: seq<T>, w: seq<T>)
    requires |givers| == |w| && Distinct(givers) && Distinct(w)
    requires |w| > 0 ==> w[|w| - 1] != givers[|givers| - 1]
    ensures AllAssigned(Pairing(givers, w).recipients)
    ensures Pairing(givers, w).left == []
    decreases |givers|
  {
    if |givers| == 1 {
      PairingLastGiver(givers, w);
      var p := Pairing(givers, w);
      forall k | 0 <= k < |p.recipients| ensures p.recipients[k].Some? {
        assert k == 0;
      }
    } else if |givers| >= 2 {
      PairingStep(givers, w);
      var i := FirstOther(w, givers[0]).value;
      PairingComplete(givers[1..], Pop(w, i));
      PairingTaken(givers, w, i);
    }
  }

  /** For two or more distinct members and any shuffle, the draw assigns every
      member a recipient, uses up the working list, and the recipients form a
      derangement of the roster: nobody draws themself and everybody is drawn
      exactly once. */
  lemma DrawIsDerangement<T>(members: seq<T>, shuffled: seq<T>)
    requires |members| >= 2 && Distinct(members)
    requires multiset(shuffled) == multiset(members)
    ensures Match(members, shuffled).Done?
    ensures var p := Match(members, shuffled).pairs;
      AllAssigned(p.recipients) && p.left == [] &&
      IsDerangement(members, Receivers(p.recipients)) && Distinct(Receivers(p.recipients))
  {
    CorrectedTailDiffers(members, shuffled);
    var w := Corrected(members, shuffled);
    assert Match(members, shuffled) == Done(Pairing(members, w));
    PairingComplete(members, w);
    PairingConserves(members, w);
    var p := Pairing(members, w);
    var r := Receivers(p.recipients);
    assert |r| == |members|;
    assert multiset(r) == multiset(members);
    forall k | 0 <= k < |members| ensures r[k] != members[k] {
      assert p.recipients[k] == Some(r[k]);
    }
    PermutationKeepsDistinct(members, r);
  }

  /** A roster of one member: the scan finds nobody else, so nothing is assigned
      and the member stays in the working list. */
  lemma SingleMemberDrawsNobody<T>(m: T, shuffled: seq<T>)
    requires multiset(shuffled) == multiset([m])
    ensures Match([m], shuffled) == Done(Pairs([None], [m]))
  {
    assert |shuffled| == |multiset(shuffled)| == 1;
    assert shuffled[0] in multiset(shuffled);
    assert shuffled == [m];
    assert Corrected([m], shuffled) == [m];
    assert FirstOther([m], m) == None;
    assert [m][1..] == [];
    assert Pairing([m], [m]) == Pairs([None], [m]);
  }

  /** For a roster without repeats, every member gets a recipient exactly when
      there are at least two members. */
  lemma AllAssignedIffTwoOrMore<T>(members: seq<T>, shuffled: seq<T>)
    requires |members| >= 1 && Distinct(members)
    requires multiset(shuffled) == multiset(members)
    ensures AllAssigned(Match(members, shuffled).pairs.recipients) <==> |members| >= 2
  {
    if |members| >= 2 {
      DrawIsDerangement(members, shuffled);
    } else {
      SingleMemberDrawsNobody(members[0], shuffled);
      assert members == [members[0]];
    }
  }

  /** The whole draw, turn by turn: what the turns over the corrected list hand
      out is what the draw hands out. */
  lemma MatchByTurns<T>(members: seq<T>, shuffled: seq<T>)
    requires |shuffled| > 0 && multiset(shuffled) == multiset(members)
    ensures |members| > 0 && Match(members, shuffled).Done?
    ensures Match(members, shuffled).pairs.recipients ==
              PicksUpTo(members, Corrected(members, shuffled), |members|)
  {
    assert shuffled[0] in multiset(members);
    PairingByTurns(members, Corrected(members, shuffled));
  }
}
