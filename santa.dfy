/** Group members and the in-place draw that fills in their recipients. */
module Santa {
  import opened Draw

  /** A member of a group, as far as the draw sees it: an object compared by
      identity whose `recipient` is the member it gives a gift to. The member's
      other fields (user, group, wishlist) play no part in the draw. */
  class GroupMember {
    var recipient: GroupMember?

    constructor ()
      ensures recipient == null
    {
      recipient := null;
    }
  }

  /** The inner `for i, receiver in enumerate(...)` loop: skips the entries equal
      to the giver and stops at the first other one. Returns its index, or the
      list's length when every entry is the giver. */
  method ScanForReceiver(working: seq<GroupMember>, giver: GroupMember) returns (i: nat)
    ensures i <= |working|
    ensures i < |working| <==> FirstOther(working, giver).Some?
    ensures i < |working| ==> FirstOther(working, giver) == Some(i)
  {
    i := 0;
    while i < |working| && working[i] == giver
      invariant i <= |working|
      invariant forall j :: 0 <= j < i ==> working[j] == giver
    {
      i := i + 1;
    }
  }

  /** One giver's turn of the outer loop: when the scan finds someone else, the
      giver's recipient becomes that entry and the entry is popped from the
      working list; otherwise neither changes. */
  method TakeTurn(giver: GroupMember, working: seq<GroupMember>) returns (rest: seq<GroupMember>)
    modifies giver
    ensures rest == Rest(working, giver)
    ensures giver.recipient == if Pick(working, giver).Some? then Pick(working, giver).value else old(giver.recipient)
  {
    var i := ScanForReceiver(working, giver);
    if i < |working| {
      giver.recipient := working[i];
      rest := Pop(working, i);
    } else {
      rest := working;
    }
  }

  /** The outer `for giver in members` loop over the corrected working list `w`:
      each giver takes a turn, so afterwards every giver whose turn handed out
      an entry has that entry as recipient and the others are unchanged. */
  method HandOut(members: seq<GroupMember>, w: seq<GroupMember>)
    requires Distinct(members)
    modifies set m | m in members
    ensures forall j :: 0 <= j < |members| ==>
      members[j].recipient ==
        if PicksUpTo(members, w, |members|)[j].Some? then PicksUpTo(members, w, |members|)[j].value
        else old(members[j].recipient)
  {
    var working := w;
    ghost var picks: seq<Option<GroupMember>> := [];
    for k := 0 to |members|
      invariant working == WorkingAt(members, w, k)
      invariant picks == PicksUpTo(members, w, k)
      invariant forall j :: 0 <= j < |members| ==>
        members[j].recipient == if j < k && picks[j].Some? then picks[j].value else old(members[j].recipient)
    {
      var giver := members[k];
      picks := picks + [Pick(working, giver)];
      working := TakeTurn(giver, working);
      assert picks == PicksUpTo(members, w, k + 1);
      assert working == WorkingAt(members, w, k + 1);
      forall j | 0 <= j < |members|
        ensures members[j].recipient ==
          if j < k + 1 && picks[j].Some? then picks[j].value else old(members[j].recipient)
      {
        if j != k {
          assert members[j] != giver;
        }
      }
    }
  }

  /** giver_receiver_matching: copies the shuffled roster into a working list,
      rotates it when it ends with the roster's last member, then walks the
      roster and sets each giver's recipient to the first working entry that is
      not the giver, popping that entry. Returns false when indexing the empty
      list raises IndexError. */
  method GiverReceiverMatching(members: seq<GroupMember>, shuffled: seq<GroupMember>)
    returns (ok: bool)
    requires Distinct(members)
    requires multiset(shuffled) == multiset(members)
    modifies set m | m in members
    ensures ok <==> |members| > 0
    ensures ok ==>
      var r := Match(members, shuffled).pairs.recipients;
      forall k :: 0 <= k < |members| ==>
        members[k].recipient == if r[k].Some? then r[k].value else old(members[k].recipient)
    ensures |members| >= 2 ==>
      var d := Receivers(Match(members, shuffled).pairs.recipients);
      IsDerangement(members, d) && forall k :: 0 <= k < |members| ==> members[k].recipient == d[k]
    ensures |members| == 1 ==> members[0].recipient == old(members[0].recipient)
  {
    assert |shuffled| == |multiset(shuffled)| == |multiset(members)| == |members|;
    var working := shuffled;
    if |working| == 0 {
      return false;
    }
    if working[|working| - 1] == members[|members| - 1] {
      working := working[1..] + [working[0]];
    }
    ok := true;
    HandOut(members, working);

    MatchByTurns(members, shuffled);
    ghost var r := Match(members, shuffled).pairs.recipients;
    assert r == PicksUpTo(members, working, |members|);
    if |members| >= 2 {
      DrawIsDerangement(members, shuffled);
      var d := Receivers(r);
      forall k | 0 <= k < |members| ensures members[k].recipient == d[k] {
        assert r[k] == Some(d[k]);
      }
    } else {
      assert members == [members[0]];
      SingleMemberDrawsNobody(members[0], shuffled);
    }
  }
}
