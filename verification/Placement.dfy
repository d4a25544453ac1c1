/** Where the replicas of a storage server live, and which replica a failed-over read uses. */
module Placement {

  /** A copy folder (1 or 2) on a server. */
  datatype Place = Place(server: nat, folder: nat)

  /** The branches shared by redundant_copy and Readfunctionality: index1 with p1, index2 with p2. */
  method Choose(index: nat) returns (first: Place, second: Place)
    ensures (first, second) == Replicas(index)
  {
    var mod := index % 3;
    var index1: nat, index2: nat;
    var p1: nat, p2: nat;
    if mod == 0 {
      index1 := index + 1;
      index2 := index + 2;
      p1, p2 := 1, 1;
    } else if mod == 1 {
      index1 := index - 1;
      index2 := index + 1;
      p1, p2 := 1, 2;
    } else {
      index1 := index - 2;
      index2 := index - 1;
      p1, p2 := 2, 2;
    }
    return Place(index1, p1), Place(index2, p2);
  }

  /** The other two servers of the group of three, the lower one first; a server keeps the lower of its
      two fellows in folder 1 and the higher one in folder 2. */
  function Replicas(index: nat): (Place, Place) {
    var g := index - index % 3;
    var a: nat := if index % 3 == 0 then g + 1 else g;
    var b: nat := if index % 3 == 2 then g + 1 else g + 2;
    (Place(a, FolderOf(a, index)), Place(b, FolderOf(b, index)))
  }

  /** In which folder of the host the primary is kept: 1 if the primary is the lower of the host's two
      fellows. */
  function FolderOf(host: nat, primary: nat): nat {
    var g := primary - primary % 3;
    var other: int := 3 * g + 3 - host - primary;
    if primary < other then 1 else 2
  }

  predicate IsReplica(p: Place, primary: nat) {
    p == Replicas(primary).0 || p == Replicas(primary).1
  }

  predicate SameGroup(a: nat, b: nat) {
    a / 3 == b / 3
  }

  /** Both replicas lie in the primary's group, on two different servers other than the primary. */
  lemma ReplicasInGroup(index: nat, groups: nat)
    requires index < 3 * groups
    ensures var (a, b) := Replicas(index);
      && SameGroup(a.server, index) && SameGroup(b.server, index)
      && a.server != index && b.server != index && a.server != b.server
      && a.server < 3 * groups && b.server < 3 * groups
      && 1 <= a.folder <= 2 && 1 <= b.folder <= 2
  {}

  /** The primary whose copy a folder of a server holds. */
  function PrimaryOf(p: Place): nat {
    var g := p.server - p.server % 3;
    if p.folder == 1 then (if p.server % 3 == 0 then g + 1 else g)
    else (if p.server % 3 == 2 then g + 1 else g + 2)
  }

  /** Placement is a bijection: every copy folder of every server belongs to exactly one primary. */
  lemma OnePrimary(p: Place, primary: nat)
    requires 1 <= p.folder <= 2
    ensures IsReplica(p, primary) <==> primary == PrimaryOf(p)
    ensures SameGroup(PrimaryOf(p), p.server) && PrimaryOf(p) != p.server
  {
    var r := primary % 3;
    var q := p.server % 3;
  }

  // ---------- failover ----------

  datatype Source = Main(server: nat) | Copy(place: Place)

  /** The choice in Readfunctionality: the server itself, else its first or second replica, else the
      server itself although it is down. */
  method ReadFrom(index: nat, available: seq<bool>) returns (s: Source)
    requires |available| % 3 == 0 && index < |available|
    ensures s.Copy? ==> !available[index] && IsReplica(s.place, index)
    ensures s.Copy? ==> s.place.server < |available| && available[s.place.server]
    ensures s.Copy? && s.place != Replicas(index).0 ==> !available[Replicas(index).0.server]
    ensures s.Main? ==> s.server == index
    ensures s.Main? && !available[index] <==> forall k | 0 <= k < |available| && SameGroup(k, index) :: !available[k]
  {
    ReplicasInGroup(index, |available| / 3);
    if available[index] {
      return Main(index);
    }
    var first, second := Choose(index);
    if available[first.server] {
      s := Copy(first);
    } else if available[second.server] {
      s := Copy(second);
    } else {
      s := Main(index);
      forall k | 0 <= k < |available| && SameGroup(k, index) ensures !available[k] {
        Fellows(index, k);
      }
    }
  }

  lemma Fellows(index: nat, k: nat)
    requires SameGroup(k, index)
    ensures k == index || k == Replicas(index).0.server || k == Replicas(index).1.server
  {}

  /** Of a group's three servers each keeps the copy of its lower fellow in folder 1 and that of the higher one in
      folder 2; and a primary lists the replica on its lower fellow first. */
  lemma LowerFirst(host: nat, a: nat, b: nat)
    requires SameGroup(a, host) && SameGroup(b, host) && a != host && b != host && a < b
    ensures IsReplica(Place(host, 1), a) && IsReplica(Place(host, 2), b)
    ensures Replicas(host).0.server == a && Replicas(host).1.server == b
  {}
}
