/** Names that are not taken yet: a stem followed by the first free number. */
module FreshNames {
  import opened Graphs

  const DIGITS := "0123456789"

  function Numeral(n: nat): (s: string)
    ensures s != [] && forall c | c in s :: c in DIGITS
  {
    if n < 10 then [DIGITS[n]] else Numeral(n / 10) + [DIGITS[n % 10]]
  }

  lemma {:induction false} NumeralInjective(a: nat, b: nat)
    requires Numeral(a) == Numeral(b)
    ensures a == b
  {
    var s, t := Numeral(a), Numeral(b);
    assert s[|s|-1] == DIGITS[a % 10] && t[|t|-1] == DIGITS[b % 10];
    assert a % 10 == b % 10;
    if a >= 10 && b >= 10 {
      assert s[..|s|-1] == Numeral(a / 10) && t[..|t|-1] == Numeral(b / 10);
      NumeralInjective(a / 10, b / 10);
    } else {
      assert |Numeral(a / 10)| >= 1 && |Numeral(b / 10)| >= 1;
    }
  }

  /** The first separator splits a text in only one way. */
  lemma SplitFirst(sep: char, a: string, v: string, b: string, w: string)
    requires a + [sep] + v == b + [sep] + w && sep !in a && sep !in b
    ensures a == b && v == w
  {
    var s := a + [sep] + v;
    var z := b + [sep] + w;
    assert s[|a|] == sep && z[|b|] == sep;
    assert forall i | 0 <= i < |a| :: s[i] == a[i] && a[i] != sep;
    assert forall i | 0 <= i < |b| :: z[i] == b[i] && b[i] != sep;
    assert |a| == |b|;
    assert s[..|a|] == a && z[..|b|] == b && s[|a|+1..] == v && z[|b|+1..] == w;
  }

  function FreshName(stem: string, n: nat): string {
    "__" + stem + Numeral(n)
  }

  lemma FreshNameInjective(stem: string, a: nat, b: nat)
    requires FreshName(stem, a) == FreshName(stem, b)
    ensures a == b
  {
    var k := |"__" + stem|;
    assert FreshName(stem, a)[k..] == Numeral(a) && FreshName(stem, b)[k..] == Numeral(b);
    NumeralInjective(a, b);
  }

  lemma UntriedName(stem: string, n: nat, tried: set<string>)
    requires forall x | x in tried :: exists k: nat :: k < n && x == FreshName(stem, k)
    ensures FreshName(stem, n) !in tried
    ensures forall x | x in tried + {FreshName(stem, n)} :: exists k: nat :: k < n + 1 && x == FreshName(stem, k)
  {
    forall k: nat | k < n ensures FreshName(stem, k) != FreshName(stem, n) {
      if FreshName(stem, k) == FreshName(stem, n) { FreshNameInjective(stem, k, n); }
    }
    forall x | x in tried + {FreshName(stem, n)} ensures exists k: nat :: k < n + 1 && x == FreshName(stem, k) {
      if x in tried {
        var k: nat :| k < n && x == FreshName(stem, k);
      } else {
        assert x == FreshName(stem, n);
      }
    }
  }

  /** The first free name of a stem; one is found, since each name tried is a different one. */
  method PickFresh(stem: string, taken: set<string>) returns (name: string)
    ensures name !in taken
    ensures exists n: nat :: name == FreshName(stem, n) && forall k: nat | k < n :: FreshName(stem, k) in taken
  {
    hide FreshName;
    var n := 0;
    name := FreshName(stem, n);
    ghost var tried: set<string> := {};
    while name in taken
      invariant name == FreshName(stem, n)
      invariant tried <= taken && |tried| == n
      invariant forall x | x in tried :: exists k: nat :: k < n && x == FreshName(stem, k)
      invariant forall k: nat | k < n :: FreshName(stem, k) in taken
      decreases |taken| - n
    {
      UntriedName(stem, n, tried);
      tried := tried + {name};
      SubsetCount(tried, taken);
      n := n + 1;
      name := FreshName(stem, n);
    }
  }
}
