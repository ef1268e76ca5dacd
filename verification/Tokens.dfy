/** Splitting a message at its spaces (common/StringVector.hpp), and where in the text its tokens end. */
module Tokens {

  /** A token as the tokenizer yields it. */
  ghost predicate IsToken(t: string) { t != "" && ' ' !in t && '\n' !in t }

  ghost predicate AllTokens(ts: seq<string>) { forall i :: 0 <= i < |ts| ==> IsToken(ts[i]) }

  function TokenEnd(s: string): (n: nat)
    ensures n <= |s| && (n < |s| ==> s[n] == ' ' || s[n] == '\n')
    ensures forall i :: 0 <= i < n ==> s[i] != ' ' && s[i] != '\n'
  {
    if s == "" || s[0] == ' ' || s[0] == '\n' then 0 else 1 + TokenEnd(s[1..])
  }

  /** Splits at spaces, up to the end of the line. */
  function Tokenize(s: string): seq<string> {
    if s == "" || s[0] == '\n' then []
    else if s[0] == ' ' then Tokenize(s[1..])
    else [s[..TokenEnd(s)]] + Tokenize(s[TokenEnd(s)..])
  }

  predicate StartsWord(s: string) { s != "" && s[0] != ' ' && s[0] != '\n' }

  /** The text starts with a space, or with what ends the line, or is empty. */
  predicate StartsGap(s: string) { s == "" || s[0] == ' ' || s[0] == '\n' }

  lemma TokenEndIs(s: string, n: nat)
    requires n <= |s| && (n < |s| ==> s[n] == ' ' || s[n] == '\n')
    requires forall i :: 0 <= i < n ==> s[i] != ' ' && s[i] != '\n'
    ensures TokenEnd(s) == n
  {
  }

  lemma TokenizeSpace(s: string)
    requires s != "" && s[0] == ' '
    ensures Tokenize(s) == Tokenize(s[1..])
  {
  }

  lemma TokenizeWord(s: string)
    requires StartsWord(s)
    ensures 0 < TokenEnd(s) && Tokenize(s) == [s[..TokenEnd(s)]] + Tokenize(s[TokenEnd(s)..])
  {
  }

  lemma TokenEndFront(a: string, b: string)
    requires TokenEnd(a) < |a| || StartsGap(b)
    ensures TokenEnd(a + b) == TokenEnd(a)
  {
    hide TokenEnd;
    var n := TokenEnd(a);
    assert forall i :: 0 <= i < |a| ==> (a + b)[i] == a[i];
    TokenEndIs(a + b, n);
  }

  /** A first word that ends inside the text, or where the text ends and a gap follows, is the first word with what follows too. */
  lemma FirstWord(a: string, b: string)
    requires StartsWord(a) && (TokenEnd(a) < |a| || StartsGap(b))
    ensures var n := TokenEnd(a);
      0 < n && Tokenize(a) == [a[..n]] + Tokenize(a[n..]) && Tokenize(a + b) == [a[..n]] + Tokenize(a[n..] + b)
  {
    hide Tokenize, TokenEnd;
    var n := TokenEnd(a);
    TokenEndFront(a, b);
    TokenizeWord(a);
    TokenizeWord(a + b);
    CutFront(a, b, n);
  }

  /** Part of the rest of a text is part of the text. */
  lemma Shifted(s: string, n: nat, a: nat, b: nat)
    requires n <= a <= b <= |s|
    ensures s[a..b] == s[n..][a - n..b - n]
  {
  }

  lemma CutFront(a: string, b: string, n: nat)
    requires n <= |a|
    ensures (a + b)[..n] == a[..n] && (a + b)[n..] == a[n..] + b
  {
  }

  lemma EmptyText(s: string)
    ensures s == "" ==> Tokenize(s) == []
  {
  }

  /** Texts tokenize one after the other where there is a gap between them. */
  lemma {:induction false} TokenizeConcat(a: string, b: string)
    requires '\n' !in a && (a == "" || a[|a| - 1] == ' ' || StartsGap(b))
    ensures Tokenize(a + b) == Tokenize(a) + Tokenize(b)
    decreases |a|
  {
    if a == "" {
      assert a + b == b;
    } else {
      hide Tokenize, TokenEnd;
      assert a[0] in a;
      if a[0] == ' ' {
        assert (a + b)[1..] == a[1..] + b;
        TokenizeSpace(a);
        TokenizeSpace(a + b);
        TokenizeConcat(a[1..], b);
      } else {
        var n := TokenEnd(a);
        assert n == |a| ==> a[n - 1] != ' ';
        FirstWord(a, b);
        TokenizeConcat(a[n..], b);
        assert [a[..n]] + (Tokenize(a[n..]) + Tokenize(b)) == [a[..n]] + Tokenize(a[n..]) + Tokenize(b);
      }
    }
  }

  /** Without a gap the last token of the one and the first of the other grow together. */
  lemma {:induction false} TokenizeGlue(a: string, b: string)
    requires a != "" && '\n' !in a && a[|a| - 1] != ' ' && StartsWord(b)
    ensures 0 < |Tokenize(a)| <= |Tokenize(a + b)| && Tokenize(b) != []
    ensures Tokenize(a + b)[|Tokenize(a)| - 1] == Tokenize(a)[|Tokenize(a)| - 1] + Tokenize(b)[0]
    decreases |a|
  {
    hide Tokenize, TokenEnd;
    assert a[0] in a;
    if a[0] == ' ' {
      assert (a + b)[1..] == a[1..] + b;
      TokenizeSpace(a);
      TokenizeSpace(a + b);
      TokenizeGlue(a[1..], b);
    } else if TokenEnd(a) < |a| {
      FirstWord(a, b);
      TokenizeGlue(a[TokenEnd(a)..], b);
    } else {
      GlueWords(a, b);
    }
  }

  lemma GlueWords(a: string, b: string)
    requires StartsWord(a) && TokenEnd(a) == |a| && StartsWord(b)
    ensures Tokenize(a) == [a] && Tokenize(b) != [] && Tokenize(a + b) != [] && Tokenize(a + b)[0] == a + Tokenize(b)[0]
  {
    hide Tokenize, TokenEnd;
    var k := TokenEnd(b);
    assert forall i :: 0 <= i < |a| ==> (a + b)[i] == a[i];
    assert forall i :: |a| <= i < |a| + |b| ==> (a + b)[i] == b[i - |a|];
    TokenEndIs(a + b, |a| + k);
    assert (a + b)[..|a| + k] == a + b[..k] && a[..|a|] == a && a[|a|..] == "";
    TokenizeWord(a);
    TokenizeWord(b);
    TokenizeWord(a + b);
    EmptyText("");
  }

  ghost predicate AllSpaces(s: string) { forall i :: 0 <= i < |s| ==> s[i] == ' ' }

  lemma {:induction false} NoTokens(s: string)
    requires AllSpaces(s)
    ensures Tokenize(s) == []
  {
    if s != "" {
      NoTokens(s[1..]);
    }
  }

  lemma {:induction false} SomeToken(s: string)
    requires s != "" && '\n' !in s && s[|s| - 1] != ' '
    ensures Tokenize(s) != []
  {
    assert s[0] in s;
    if s[0] == ' ' {
      SomeToken(s[1..]);
    }
  }

  // ---- where tokens end -------------------------------------------------

  /** The position just behind token k. */
  function Behind(s: string, k: nat): (e: nat)
    requires k < |Tokenize(s)|
  {
    if s[0] == ' ' then 1 + Behind(s[1..], k)
    else if k == 0 then TokenEnd(s)
    else TokenEnd(s) + Behind(s[TokenEnd(s)..], k - 1)
  }

  lemma BehindSpace(s: string, k: nat)
    requires k < |Tokenize(s)| && s[0] == ' '
    ensures Tokenize(s) == Tokenize(s[1..]) && Behind(s, k) == 1 + Behind(s[1..], k)
  {
  }

  /** Behind the first word of a text with more tokens there is a space. */
  lemma BehindWord(s: string, k: nat)
    requires k < |Tokenize(s)| && s[0] != ' '
    ensures var n := TokenEnd(s);
      && StartsWord(s) && 0 < n && Tokenize(s)[0] == s[..n] && Tokenize(s)[1..] == Tokenize(s[n..])
      && if k == 0 then Behind(s, k) == n else n < |s| && s[n] == ' ' && Behind(s, k) == n + Behind(s[n..], k - 1)
  {
  }

  /** The lengths of the first n tokens. */
  function Sizes(ts: seq<string>, n: nat): nat
    requires n <= |ts|
  {
    if n == 0 then 0 else Sizes(ts, n - 1) + |ts[n - 1]|
  }

  lemma {:induction false} SizesFront(ts: seq<string>, n: nat)
    requires 0 < n <= |ts|
    ensures Sizes(ts, n) == |ts[0]| + Sizes(ts[1..], n - 1)
  {
    if n > 1 {
      SizesFront(ts, n - 1);
    }
  }

  /** A text is cut behind token k, not sooner than with single spaces. */
  lemma {:induction false} CutBehind(s: string, k: nat)
    requires k < |Tokenize(s)|
    ensures var e := Behind(s, k);
      Sizes(Tokenize(s), k + 1) + k <= e <= |s| && 0 < e && s[e - 1] != ' ' && '\n' !in s[..e] && StartsGap(s[e..])
    decreases |s|
  {
    hide Tokenize, Behind, TokenEnd, Sizes;
    var ts, e := Tokenize(s), Behind(s, k);
    EmptyText(s);
    if s[0] == ' ' {
      BehindSpace(s, k);
      CutBehind(s[1..], k);
      CutLater(s, 0, e);
    } else {
      BehindWord(s, k);
      var n := TokenEnd(s);
      SizesFront(ts, k + 1);
      if k == 0 {
        NoSizes(ts[1..]);
      } else {
        var t := s[n..];
        BehindSpace(t, k - 1);
        assert t[1..] == s[n + 1..];
        CutBehind(s[n + 1..], k - 1);
        CutLater(s, n, e);
      }
    }
  }

  lemma CutLater(s: string, n: nat, e: nat)
    requires n < |s| && s[n] == ' ' && '\n' !in s[..n] && n + 1 <= e <= |s|
    ensures s[e..] == s[n + 1..][e - n - 1..] && ('\n' !in s[n + 1..][..e - n - 1] ==> '\n' !in s[..e])
  {
    assert s[..e] == s[..n] + [' '] + s[n + 1..][..e - n - 1];
  }

  lemma NoSizes(ts: seq<string>)
    ensures Sizes(ts, 0) == 0
  {
  }

  lemma {:induction false} FrontTokens(s: string, k: nat)
    requires k < |Tokenize(s)|
    ensures Behind(s, k) <= |s| && Tokenize(s[..Behind(s, k)]) == Tokenize(s)[..k + 1]
    decreases |s|
  {
    hide Tokenize, Behind, TokenEnd;
    var e := Behind(s, k);
    CutBehind(s, k);
    if s[0] == ' ' {
      BehindSpace(s, k);
      FrontTokens(s[1..], k);
      assert s[..e][1..] == s[1..][..e - 1];
      TokenizeSpace(s[..e]);
    } else {
      BehindWord(s, k);
      var n := TokenEnd(s);
      assert forall i :: 0 <= i < e ==> s[..e][i] == s[i];
      TokenEndIs(s[..e], n);
      TokenizeWord(s[..e]);
      assert s[..e][..n] == s[..n];
      if k == 0 {
        EmptyText(s[..e][n..]);
      } else {
        FrontTokens(s[n..], k - 1);
        assert s[..e][n..] == s[n..][..e - n];
      }
    }
  }

  /** The tokens up to k, and behind it the others. */
  lemma SplitTokens(s: string, k: nat)
    requires k < |Tokenize(s)|
    ensures Behind(s, k) <= |s| && Tokenize(s[..Behind(s, k)]) == Tokenize(s)[..k + 1]
    ensures Tokenize(s[Behind(s, k)..]) == Tokenize(s)[k + 1..]
  {
    hide Tokenize, Behind, Sizes;
    CutBehind(s, k);
    FrontTokens(s, k);
    var a, b := s[..Behind(s, k)], s[Behind(s, k)..];
    assert a + b == s;
    TokenizeConcat(a, b);
  }

  /** Between a token and the next there are only spaces, and at least one. */
  lemma {:induction false} Gap(s: string, k: nat)
    requires k + 1 < |Tokenize(s)|
    ensures var start := Behind(s, k + 1) - |Tokenize(s)[k + 1]|;
      Behind(s, k) < start <= |s| && AllSpaces(s[Behind(s, k)..start])
    decreases |s|
  {
    hide Tokenize, Behind, TokenEnd, AllSpaces;
    EmptyText(s);
    var e, start := Behind(s, k), Behind(s, k + 1) - |Tokenize(s)[k + 1]|;
    if s[0] == ' ' {
      BehindSpace(s, k);
      BehindSpace(s, k + 1);
      Gap(s[1..], k);
      Shifted(s, 1, e, start);
    } else {
      BehindWord(s, k);
      BehindWord(s, k + 1);
      var n := TokenEnd(s);
      if k == 0 {
        FirstGap(s[n..]);
      } else {
        Gap(s[n..], k - 1);
      }
      Shifted(s, n, e, start);
    }
  }

  lemma PartOfGap(s: string, e: nat, cut: nat, start: nat)
    requires e <= cut <= start <= |s| && AllSpaces(s[e..start])
    ensures AllSpaces(s[e..cut]) && (e < cut ==> s[e] == ' ' && s[cut - 1] == ' ')
    ensures s[..cut] == s[..e] + s[e..cut] && s[e..] == s[e..cut] + s[cut..]
  {
    forall i | e <= i < start ensures s[i] == ' ' {
      assert s[e..start][i - e] == s[i];
    }
  }

  lemma {:induction false} FirstGap(s: string)
    requires Tokenize(s) != []
    ensures var start := Behind(s, 0) - |Tokenize(s)[0]|;
      0 <= start <= |s| && (s[0] == ' ' ==> 0 < start) && AllSpaces(s[0..start])
  {
    hide Tokenize, Behind, TokenEnd;
    EmptyText(s);
    if s[0] == ' ' {
      BehindSpace(s, 0);
      FirstGap(s[1..]);
      var start := Behind(s, 0) - |Tokenize(s)[0]|;
      assert s[0..start] == [' '] + s[1..][0..start - 1];
    } else {
      BehindWord(s, 0);
    }
  }

  // ---- single spaces ----------------------------------------------------

  /** Tokens with one space between. */
  function Join(ts: seq<string>): string {
    if ts == [] then "" else if |ts| == 1 then ts[0] else ts[0] + " " + Join(ts[1..])
  }

  lemma TokenEndOf(t: string, rest: string)
    requires IsToken(t) && (rest == "" || rest[0] == ' ')
    ensures TokenEnd(t + rest) == |t| && StartsWord(t + rest)
  {
    var s := t + rest;
    assert forall i :: 0 <= i < |t| ==> s[i] == t[i] && t[i] in t;
    assert rest != "" ==> s[|t|] == ' ';
  }

  lemma WordThen(t: string, rest: string)
    requires IsToken(t) && (rest == "" || rest[0] == ' ')
    ensures StartsWord(t + rest) && Tokenize(t + rest) == [t] + Tokenize(rest)
  {
    hide Tokenize, TokenEnd, IsToken;
    TokenEndOf(t, rest);
    TokenizeWord(t + rest);
    assert (t + rest)[..|t|] == t && (t + rest)[|t|..] == rest;
  }

  lemma JoinStep(ts: seq<string>) returns (rest: string)
    requires ts != []
    ensures Join(ts) == ts[0] + rest
    ensures if |ts| == 1 then rest == "" else rest == " " + Join(ts[1..])
  {
    if |ts| == 1 {
      rest := "";
    } else {
      rest := " " + Join(ts[1..]);
    }
  }

  lemma {:induction false} TokenizeJoin(ts: seq<string>)
    requires AllTokens(ts)
    ensures Tokenize(Join(ts)) == ts
  {
    EmptyText("");
    if ts != [] {
      hide Tokenize, Join, IsToken;
      var rest := JoinStep(ts);
      WordThen(ts[0], rest);
      if |ts| > 1 {
        TokenizeSpace(rest);
        assert rest[1..] == Join(ts[1..]);
        TokenizeJoin(ts[1..]);
      }
      assert [ts[0]] + ts[1..] == ts;
    }
  }

  lemma {:induction false} JoinBehind(ts: seq<string>, k: nat)
    requires AllTokens(ts) && k < |ts|
    ensures Tokenize(Join(ts)) == ts && Behind(Join(ts), k) == Sizes(ts, k + 1) + k
    decreases |ts|
  {
    hide Tokenize, Join, IsToken, Behind, Sizes, TokenEnd;
    var s := Join(ts);
    TokenizeJoin(ts);
    var rest := JoinStep(ts);
    TokenEndOf(ts[0], rest);
    BehindWord(s, k);
    SizesFront(ts, k + 1);
    if k == 0 {
      NoSizes(ts[1..]);
    } else {
      assert s[|ts[0]|..] == rest && rest[1..] == Join(ts[1..]);
      BehindSpace(rest, k - 1);
      JoinBehind(ts[1..], k - 1);
    }
  }
}
