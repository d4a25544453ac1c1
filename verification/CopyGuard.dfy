/** The client's check of a copydir command. */
module CopyGuard {
  import opened Words
  import opened PathNames

  /** strcmp, then both paths get a slash and are compared over the shorter length. */
  method Accepts(path1: Word, path2: Word) returns (flag: bool)
    ensures flag <==> Unrelated(path1, path2)
  {
    if path1 == path2 {
      flag := false;
    } else {
      flag := false;
      var p1, p2 := path1 + [SLASH], path2 + [SLASH];
      var minimum := |p1|;
      if |p2| < minimum {
        minimum := |p2|;
      }
      var j := 0;
      while j < minimum
        invariant 0 <= j <= minimum
        invariant flag <==> p1[..j] != p2[..j]
      {
        if p1[j] != p2[j] {
          flag := true;
        }
        if flag {
          assert p1[..minimum] != p2[..minimum] by {
            assert p1[..minimum][j] != p2[..minimum][j];
          }
          break;
        }
        j := j + 1;
      }
      ComparedIs(path1, path2, minimum, flag);
    }
  }

  lemma ComparedIs(a: Word, b: Word, n: nat, differ: bool)
    requires n == if |b| < |a| then |b| + 1 else |a| + 1
    requires differ <==> (a + [SLASH])[..n] != (b + [SLASH])[..n]
    ensures differ <==> Unrelated(a, b)
  {
    if |a| <= |b| {
      assert (a + [SLASH])[..n] == a + [SLASH];
      assert a + [SLASH] <= b + [SLASH] <==> a + [SLASH] == (b + [SLASH])[..n];
    } else {
      assert (b + [SLASH])[..n] == b + [SLASH];
      assert b + [SLASH] <= a + [SLASH] <==> b + [SLASH] == (a + [SLASH])[..n];
    }
  }

  /** So the command goes out exactly when neither path is the other or an ancestor of the other; without a
      second path, exactly when the first does not start with a slash. */
  lemma GuardMeans(a: Word, b: Word)
    requires a != []
    ensures b != [] ==> (Unrelated(a, b) <==> a != b && !Ancestor(a, b) && !Ancestor(b, a))
    ensures b == [] ==> (Unrelated(a, b) <==> a[0] != SLASH)
  {
    AncestorOfSlash(a, b);
    AncestorOfSlash(b, a);
    if b == [] {
      var p1, p2 := a + [SLASH], b + [SLASH];
      assert |p2| == 1 && p2[0] == SLASH && p1[0] == a[0];
      assert p2 <= p1 <==> p2 == p1[..1];
    }
  }
}
