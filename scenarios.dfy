/** The fixed-shuffle scenarios of the draw's unit tests, for any distinct
    members A, B, C and D. */
module Scenarios {
  import opened Draw

  /** [A,B] shuffled to [A,B]: the tails collide, the working list is rotated to
      [B,A], and A and B draw each other. */
  lemma TwoMembersSameOrder<T>(a: T, b: T)
    requires a != b
    ensures Match([a, b], [a, b]) == Done(Pairs([Some(b), Some(a)], []))
  {
    assert Corrected([a, b], [a, b]) == [b, a];
    assert Pairing([b], [a]) == Pairs([Some(a)], []) by {
      assert FirstOther([a], b) == Some(0);
      assert Rest([a], b) == [] && [b][1..] == [];
    }
    assert Pairing([a, b], [b, a]) == Pairs([Some(b), Some(a)], []) by {
      assert FirstOther([b, a], a) == Some(0);
      assert Rest([b, a], a) == [a] && [a, b][1..] == [b];
    }
  }

  /** [A,B,C] shuffled to [A,C,B]: the tails differ, so no rotation; A skips
      itself and takes C, B takes A, C takes B. */
  lemma ThreeMembersFirstSame<T>(a: T, b: T, c: T)
    requires a != b && a != c && b != c
    ensures Match([a, b, c], [a, c, b]) == Done(Pairs([Some(c), Some(a), Some(b)], []))
  {
    assert Corrected([a, b, c], [a, c, b]) == [a, c, b];
    assert Pairing([c], [b]) == Pairs([Some(b)], []) by {
      assert FirstOther([b], c) == Some(0);
      assert Rest([b], c) == [] && [c][1..] == [];
    }
    assert Pairing([b, c], [a, b]) == Pairs([Some(a), Some(b)], []) by {
      assert FirstOther([a, b], b) == Some(0);
      assert Rest([a, b], b) == [b] && [b, c][1..] == [c];
    }
    assert Pairing([a, b, c], [a, c, b]) == Pairs([Some(c), Some(a), Some(b)], []) by {
      assert FirstOther([a, c, b], a) == Some(1);
      assert Rest([a, c, b], a) == [a, b] && [a, b, c][1..] == [b, c];
    }
  }

  /** [A,B,C,D] shuffled to [A,D,C,B]: no rotation; A takes D, B takes A,
      C skips itself and takes B, D takes C. */
  lemma FourMembersFirstSame<T>(a: T, b: T, c: T, d: T)
    requires a != b && a != c && a != d && b != c && b != d && c != d
    ensures Match([a, b, c, d], [a, d, c, b]) ==
              Done(Pairs([Some(d), Some(a), Some(b), Some(c)], []))
  {
    assert Corrected([a, b, c, d], [a, d, c, b]) == [a, d, c, b];
    assert Pairing([d], [c]) == Pairs([Some(c)], []) by {
      assert FirstOther([c], d) == Some(0);
      assert Rest([c], d) == [] && [d][1..] == [];
    }
    assert Pairing([c, d], [c, b]) == Pairs([Some(b), Some(c)], []) by {
      assert FirstOther([c, b], c) == Some(1);
      assert Rest([c, b], c) == [c] && [c, d][1..] == [d];
    }
    assert Pairing([b, c, d], [a, c, b]) == Pairs([Some(a), Some(b), Some(c)], []) by {
      assert FirstOther([a, c, b], b) == Some(0);
      assert Rest([a, c, b], b) == [c, b] && [b, c, d][1..] == [c, d];
    }
    assert Pairing([a, b, c, d], [a, d, c, b]) == Pairs([Some(d), Some(a), Some(b), Some(c)], []) by {
      assert FirstOther([a, d, c, b], a) == Some(1);
      assert Rest([a, d, c, b], a) == [a, c, b] && [a, b, c, d][1..] == [b, c, d];
    }
  }

  /** [A,B,C] shuffled to [B,A,C]: the tails collide, the working list is
      rotated to [A,C,B], and the draw is that of ThreeMembersFirstSame. */
  lemma ThreeMembersLastSame<T>(a: T, b: T, c: T)
    requires a != b && a != c && b != c
    ensures Match([a, b, c], [b, a, c]) == Done(Pairs([Some(c), Some(a), Some(b)], []))
  {
    assert Corrected([a, b, c], [b, a, c]) == [a, c, b];
    ThreeMembersFirstSame(a, b, c);
  }
}
