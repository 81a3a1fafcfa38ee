/** Places in a tree, as the numbers of the children taken from the root on, in
    the order in which a walk meets them. */
module Positions {

  type Position = seq<nat>

  /** `r` comes first: it is cut from `s`, or takes an earlier include where they part. */
  predicate Precedes(r: Position, s: Position) {
    s != [] && (r == [] || r[0] < s[0] || (r[0] == s[0] && Precedes(r[1..], s[1..])))
  }

  lemma {:induction false} PrecedesOne(r: Position, s: Position)
    ensures !(Precedes(r, s) && Precedes(s, r)) && !Precedes(r, r)
    ensures Precedes(r, s) || r == s || Precedes(s, r)
  {
    if r != [] { PrecedesOne(r[1..], r[1..]); }
    if r != [] && s != [] {
      PrecedesOne(r[1..], s[1..]);
      assert r == [r[0]] + r[1..] && s == [s[0]] + s[1..];
    }
  }

  lemma {:induction false} PrecedesTrans(r: Position, s: Position, t: Position)
    requires Precedes(r, s) && Precedes(s, t)
    ensures Precedes(r, t)
  {
    if r != [] && r[0] == s[0] == t[0] { PrecedesTrans(r[1..], s[1..], t[1..]); }
  }

  lemma {:induction false} PrecedesLonger(r: Position, here: Position, s: Position)
    requires Precedes(r, here) && here <= s
    ensures Precedes(r, s)
  {
    if r != [] && r[0] == here[0] { PrecedesLonger(r[1..], here[1..], s[1..]); }
  }

  /** What comes before the first include of the file at `here`. */
  lemma {:induction false} BeforeFirst(r: Position, here: Position)
    ensures Precedes(r, here + [0]) <==> Precedes(r, here) || r == here
  {
    if here != [] && r != [] {
      BeforeFirst(r[1..], here[1..]);
      assert (here + [0])[1..] == here[1..] + [0];
      assert r == [r[0]] + r[1..] && here == [here[0]] + here[1..];
    }
  }

  /** What comes before the next include: all before this one and all below it. */
  lemma {:induction false} BeforeNext(r: Position, here: Position, i: nat)
    ensures Precedes(r, here + [i+1]) <==> Precedes(r, here + [i]) || here + [i] <= r
  {
    if here == [] {
      if r != [] {
        assert [i][1..] == [] && [i+1][1..] == [];
        assert [i] <= r <==> r[0] == i;
      }
    } else if r != [] {
      BeforeNext(r[1..], here[1..], i);
      assert (here + [i])[1..] == here[1..] + [i] && (here + [i+1])[1..] == here[1..] + [i+1];
      assert here + [i] <= r <==> here[0] == r[0] && here[1..] + [i] <= r[1..];
    }
  }

  /** Beyond the last include there is nothing below `here`. */
  lemma {:induction false} BeforeEnd(r: Position, here: Position, n: nat)
    ensures Precedes(r, here + [n]) ==> Precedes(r, here) || here <= r
    ensures here <= r && |r| > |here| && r[|here|] < n ==> Precedes(r, here + [n])
    ensures Precedes(r, here) || r == here ==> Precedes(r, here + [n])
  {
    if here != [] && r != [] {
      BeforeEnd(r[1..], here[1..], n);
      assert (here + [n])[1..] == here[1..] + [n];
      assert here <= r <==> here[0] == r[0] && here[1..] <= r[1..];
      assert r == [r[0]] + r[1..] && here == [here[0]] + here[1..];
    }
  }
}
