/** Sequences put one behind the other or written over each other. */
module Sequences {

  /** A sequence with another one written over it from a position on. */
  function Overwrite<T>(s: seq<T>, at: nat, part: seq<T>): (r: seq<T>)
    requires at + |part| <= |s|
    ensures |r| == |s|
  {
    s[..at] + part + s[at + |part|..]
  }

  lemma OverwriteTwice<T>(s: seq<T>, at: nat, a: seq<T>, b: seq<T>)
    requires at + |a| + |b| <= |s|
    ensures Overwrite(Overwrite(s, at, a), at + |a|, b) == Overwrite(s, at, a + b)
  {
    var p, q := Overwrite(Overwrite(s, at, a), at + |a|, b), Overwrite(s, at, a + b);
    forall i | 0 <= i < |s| ensures p[i] == q[i] {
    }
  }

  function Joined<T>(parts: seq<seq<T>>): seq<T> {
    if parts == [] then [] else parts[0] + Joined(parts[1..])
  }

  lemma {:induction false} JoinedSplit<T>(parts: seq<seq<T>>, i: nat)
    requires i <= |parts|
    ensures Joined(parts) == Joined(parts[..i]) + Joined(parts[i..])
    decreases i
  {
    if i > 0 {
      JoinedSplit(parts[1..], i - 1);
      assert parts[..i][1..] == parts[1..][..i - 1] && parts[1..][i - 1..] == parts[i..];
    }
  }

  /** One part with all those before and behind it. */
  lemma JoinedAround<T>(parts: seq<seq<T>>, i: nat)
    requires i < |parts|
    ensures Joined(parts) == Joined(parts[..i]) + parts[i] + Joined(parts[i + 1..])
    ensures Joined(parts[..i + 1]) == Joined(parts[..i]) + parts[i]
  {
    JoinedSplit(parts, i + 1);
    JoinedSplit(parts[..i + 1], i);
    assert parts[..i + 1][..i] == parts[..i] && parts[..i + 1][i..] == [parts[i]];
    JoinedOne(parts[i]);
  }

  lemma SliceOf<T>(a: seq<T>, b: seq<T>, c: seq<T>)
    ensures (a + b + c)[|a|..|a| + |b|] == b
  {
  }

  lemma JoinedOne<T>(part: seq<T>)
    ensures Joined([part]) == part
  {
    var parts: seq<seq<T>> := [part];
    assert |parts[1..]| == 0;
  }
}
