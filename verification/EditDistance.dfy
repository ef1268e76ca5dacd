/** The edit distance table (common/JsonUtil.hpp) against all edit scripts. */
module EditDistance {
  import opened Arith

  /** One edit of a single character. */
  datatype Edit = Insert(at: nat, c: char) | Delete(at: nat) | Substitute(at: nat, c: char)

  predicate Applies(e: Edit, s: string) {
    match e
    case Insert(at, _) => at <= |s|
    case Delete(at) => at < |s|
    case Substitute(at, _) => at < |s|
  }

  function Apply(e: Edit, s: string): string
    requires Applies(e, s)
  {
    match e
    case Insert(at, c) => s[..at] + [c] + s[at..]
    case Delete(at) => s[..at] + s[at + 1..]
    case Substitute(at, c) => s[..at] + [c] + s[at + 1..]
  }

  /** The edits, one after the other, turn a into b. */
  predicate Turns(es: seq<Edit>, a: string, b: string) {
    if es == [] then a == b else Applies(es[0], a) && Turns(es[1..], Apply(es[0], a), b)
  }

  function Front(s: string): string
    requires s != ""
  {
    s[..|s| - 1]
  }

  function Last(s: string): char
    requires s != ""
  {
    s[|s| - 1]
  }

  /** A table entry, from the entries it is computed from. */
  function Dist(a: string, b: string): nat
    decreases |a| + |b|
  {
    if a == "" then |b|
    else if b == "" then |a|
    else if Last(a) == Last(b) then Dist(Front(a), Front(b))
    else 1 + Min(Min(Dist(a, Front(b)), Dist(Front(a), b)), Dist(Front(a), Front(b)))
  }

  lemma {:induction false} Symmetric(a: string, b: string)
    ensures Dist(a, b) == Dist(b, a)
    decreases |a| + |b|
  {
    if a != "" && b != "" {
      Symmetric(Front(a), Front(b));
      Symmetric(a, Front(b));
      Symmetric(Front(a), b);
    }
  }

  /** One more character at the end changes the distance by at most one. */
  lemma {:induction false} OneMore(p: string, c: char, b: string)
    ensures Dist(p, b) <= 1 + Dist(p + [c], b)
    ensures Dist(p + [c], b) <= 1 + Dist(p, b)
    decreases |p| + |b|
  {
    assert Front(p + [c]) == p;
    if b != "" {
      var b', y := Front(b), Last(b);
      assert b' + [y] == b;
      OneMore(b', y, p);
      Symmetric(b', p);
      Symmetric(b, p);
      OneMore(p, c, b');
    }
  }

  lemma {:induction false} Change(p: string, c: char, d: char, b: string)
    ensures Dist(p + [c], b) <= 1 + Dist(p + [d], b)
    decreases |b|
  {
    assert Front(p + [c]) == p && Front(p + [d]) == p;
    if b != "" {
      var b', y := Front(b), Last(b);
      assert b' + [y] == b;
      Change(p, c, d, b');
      OneMore(p, d, b');
      OneMore(b', y, p);
      Symmetric(b', p);
      Symmetric(b, p);
    }
  }

  /** Two strings at distance one from each other at some point stay so under a common suffix. */
  lemma {:induction false} CommonSuffix(s: string, t: string, q: string, b: string)
    requires forall b' :: Dist(s, b') <= 1 + Dist(t, b')
    ensures Dist(s + q, b) <= 1 + Dist(t + q, b)
    decreases |q| + |b|
  {
    if q == "" {
      assert s + q == s && t + q == t;
    } else {
      var q' := Front(q);
      assert Front(s + q) == s + q' && Front(t + q) == t + q';
      if b != "" {
        CommonSuffix(s, t, q', Front(b));
        CommonSuffix(s, t, q', b);
        CommonSuffix(s, t, q, Front(b));
      } else {
        CommonSuffix(s, t, q', b);
      }
    }
  }

  /** An edit anywhere in the string changes the distance by at most one. */
  lemma OneEdit(e: Edit, a: string, b: string)
    requires Applies(e, a)
    ensures Dist(a, b) <= 1 + Dist(Apply(e, a), b)
  {
    hide Dist;
    var p := a[..e.at];
    match e {
      case Insert(at, c) =>
        assert forall b' :: Dist(p, b') <= 1 + Dist(p + [c], b') by {
          forall b' ensures Dist(p, b') <= 1 + Dist(p + [c], b') { OneMore(p, c, b'); }
        }
        CommonSuffix(p, p + [c], a[at..], b);
        assert p + a[at..] == a;
      case Delete(at) =>
        assert forall b' :: Dist(p + [a[at]], b') <= 1 + Dist(p, b') by {
          forall b' ensures Dist(p + [a[at]], b') <= 1 + Dist(p, b') { OneMore(p, a[at], b'); }
        }
        CommonSuffix(p + [a[at]], p, a[at + 1..], b);
        assert p + [a[at]] + a[at + 1..] == a;
      case Substitute(at, c) =>
        assert forall b' :: Dist(p + [a[at]], b') <= 1 + Dist(p + [c], b') by {
          forall b' ensures Dist(p + [a[at]], b') <= 1 + Dist(p + [c], b') { Change(p, a[at], c, b'); }
        }
        CommonSuffix(p + [a[at]], p + [c], a[at + 1..], b);
        assert p + [a[at]] + a[at + 1..] == a;
    }
  }

  /** No script is shorter than the distance. */
  lemma {:induction false} NoShorterScript(es: seq<Edit>, a: string, b: string)
    requires Turns(es, a, b)
    ensures Dist(a, b) <= |es|
    decreases |es|
  {
    if es == [] {
      DistSelf(a);
    } else {
      NoShorterScript(es[1..], Apply(es[0], a), b);
      OneEdit(es[0], a, b);
    }
  }

  lemma {:induction false} DistSelf(a: string)
    ensures Dist(a, a) == 0
    decreases |a|
  {
    if a != "" {
      DistSelf(Front(a));
    }
  }

  lemma {:induction false} TurnsConcat(es: seq<Edit>, fs: seq<Edit>, a: string, b: string, c: string)
    requires Turns(es, a, b) && Turns(fs, b, c)
    ensures Turns(es + fs, a, c)
    decreases |es|
  {
    if es == [] {
      assert es + fs == fs;
    } else {
      assert (es + fs)[1..] == es[1..] + fs;
      TurnsConcat(es[1..], fs, Apply(es[0], a), b, c);
    }
  }

  lemma TurnsOne(e: Edit, a: string)
    requires Applies(e, a)
    ensures Turns([e], a, Apply(e, a))
  {
    assert [e][1..] == [];
  }

  /** A script still works when both strings go on with the same character. */
  lemma {:induction false} TurnsBefore(es: seq<Edit>, a: string, b: string, x: char)
    requires Turns(es, a, b)
    ensures Turns(es, a + [x], b + [x])
    decreases |es|
  {
    if es != [] {
      assert Apply(es[0], a + [x]) == Apply(es[0], a) + [x];
      TurnsBefore(es[1..], Apply(es[0], a), b, x);
    }
  }

  lemma ThenInsert(es: seq<Edit>, a: string, b: string) returns (fs: seq<Edit>)
    requires b != "" && Turns(es, a, Front(b))
    ensures Turns(fs, a, b) && |fs| == |es| + 1
  {
    var e := Insert(|b| - 1, Last(b));
    TurnsOne(e, Front(b));
    assert Apply(e, Front(b)) == b;
    TurnsConcat(es, [e], a, Front(b), b);
    fs := es + [e];
  }

  lemma FirstDelete(es: seq<Edit>, a: string, b: string) returns (fs: seq<Edit>)
    requires a != "" && Turns(es, Front(a), b)
    ensures Turns(fs, a, b) && |fs| == |es| + 1
  {
    var e := Delete(|a| - 1);
    TurnsOne(e, a);
    assert Apply(e, a) == Front(a);
    TurnsConcat([e], es, a, Front(a), b);
    fs := [e] + es;
  }

  lemma FirstSubstitute(es: seq<Edit>, a: string, b: string) returns (fs: seq<Edit>)
    requires a != "" && b != "" && Turns(es, Front(a), Front(b))
    ensures Turns(fs, a, b) && |fs| == |es| + if Last(a) == Last(b) then 0 else 1
  {
    assert Front(a) + [Last(a)] == a && Front(b) + [Last(b)] == b;
    TurnsBefore(es, Front(a), Front(b), Last(b));
    fs := es;
    if Last(a) != Last(b) {
      var e := Substitute(|a| - 1, Last(b));
      TurnsOne(e, a);
      assert Apply(e, a) == Front(a) + [Last(b)];
      TurnsConcat([e], es, a, Front(a) + [Last(b)], b);
      fs := [e] + es;
    }
  }

  /** Some script is as short as the distance. */
  lemma {:induction false} ShortestScript(a: string, b: string) returns (es: seq<Edit>)
    ensures Turns(es, a, b) && |es| == Dist(a, b)
    decreases |a| + |b|
  {
    if a == "" && b == "" {
      es := [];
      assert Turns(es, a, b);
      return;
    }
    hide Turns;
    if a == "" || (b != "" && Last(a) != Last(b) && Dist(a, b) == 1 + Dist(a, Front(b))) {
      es := ShortestScript(a, Front(b));
      es := ThenInsert(es, a, b);
    } else if b == "" || (Last(a) != Last(b) && Dist(a, b) == 1 + Dist(Front(a), b)) {
      es := ShortestScript(Front(a), b);
      es := FirstDelete(es, a, b);
    } else {
      es := ShortestScript(Front(a), Front(b));
      es := FirstSubstitute(es, a, b);
    }
  }

  ghost predicate IsLeast(n: nat, a: string, b: string) {
    && (exists es :: Turns(es, a, b) && |es| == n)
    && forall es :: Turns(es, a, b) ==> n <= |es|
  }

  /** The distance is the least number of single character edits over all scripts. */
  lemma DistIsLeast(a: string, b: string)
    ensures IsLeast(Dist(a, b), a, b)
  {
    var es := ShortestScript(a, b);
    forall fs | Turns(fs, a, b) ensures Dist(a, b) <= |fs| {
      NoShorterScript(fs, a, b);
    }
  }

  /** It is a metric. */
  lemma Metric(a: string, b: string, c: string)
    ensures Dist(a, b) == Dist(b, a)
    ensures Dist(a, b) == 0 <==> a == b
    ensures Dist(a, c) <= Dist(a, b) + Dist(b, c)
  {
    Symmetric(a, b);
    DistSelf(a);
    var es := ShortestScript(a, b);
    var fs := ShortestScript(b, c);
    TurnsConcat(es, fs, a, b, c);
    NoShorterScript(es + fs, a, c);
  }

  lemma DistEntry(a: string, b: string, i: nat, j: nat)
    requires 0 < i <= |a| && 0 < j <= |b|
    ensures Dist(a[..i], b[..j]) ==
      if a[i - 1] == b[j - 1] then Dist(a[..i - 1], b[..j - 1])
      else 1 + Min(Min(Dist(a[..i], b[..j - 1]), Dist(a[..i - 1], b[..j])), Dist(a[..i - 1], b[..j - 1]))
  {
    assert Front(a[..i]) == a[..i - 1] && Front(b[..j]) == b[..j - 1];
  }

  /** Fills the table row by row and returns its last entry. */
  method GetLevenshteinDist(string1: string, string2: string) returns (d: nat)
    ensures IsLeast(d, string1, string2) && d == Dist(string1, string2)
  {
    hide Dist, Turns;
    var matrix := new nat[|string1| + 1, |string2| + 1]((_, _) => 0);
    for i := 0 to |string1| + 1
      invariant forall k, l :: 0 <= k < i && 0 <= l <= |string2| ==> matrix[k, l] == Dist(string1[..k], string2[..l])
    {
      for j := 0 to |string2| + 1
        invariant forall k, l :: 0 <= k < i && 0 <= l <= |string2| ==> matrix[k, l] == Dist(string1[..k], string2[..l])
        invariant forall l :: 0 <= l < j ==> matrix[i, l] == Dist(string1[..i], string2[..l])
      {
        if i == 0 {
          DistEmpty(string1, string2, 0, j);
          matrix[i, j] := j;
        } else if j == 0 {
          DistEmpty(string1, string2, i, 0);
          matrix[i, j] := i;
        } else {
          DistEntry(string1, string2, i, j);
          if string1[i - 1] == string2[j - 1] {
            matrix[i, j] := matrix[i - 1, j - 1];
          } else {
            matrix[i, j] := 1 + Min(Min(matrix[i, j - 1], matrix[i - 1, j]), matrix[i - 1, j - 1]);
          }
        }
      }
    }
    d := matrix[|string1|, |string2|];
    assert string1[..|string1|] == string1 && string2[..|string2|] == string2;
    DistIsLeast(string1, string2);
  }

  lemma DistEmpty(a: string, b: string, i: nat, j: nat)
    requires i <= |a| && j <= |b| && (i == 0 || j == 0)
    ensures Dist(a[..i], b[..j]) == if i == 0 then j else i
  {
  }
}
